/** The text of a layout file (src/details_layout.c): one `key=value` line for each entry. */
module LayoutText {
  import opened Basics
  import opened Decimal
  import opened ColumnLayout
  import opened LayoutFile

  function LineOf(e: Entry): string {
    e.key + "=" + e.value
  }

  function Text(entries: seq<Entry>): string {
    if entries == [] then "" else LineOf(entries[0]) + "\n" + Text(entries[1..])
  }

  /** An entry is split at the first equals sign; a line without one is none. */
  function EntryOf(line: string): Option<Entry> {
    var i := IndexOf(line, '=');
    if i == |line| then None else Some(Entry(line[..i], line[i + 1..]))
  }

  function EntriesIn(lines: seq<string>): seq<Entry> {
    if lines == [] then []
    else EntriesIn(lines[..|lines| - 1]) + match EntryOf(lines[|lines| - 1]) case None => [] case Some(e) => [e]
  }

  /** Appends a line for every entry. */
  method Print(entries: seq<Entry>) returns (text: string)
    ensures text == Text(entries)
  {
    text := "";
    for i := 0 to |entries|
      invariant text + Text(entries[i..]) == Text(entries)
    {
      hide LineOf;
      assert entries[i..][1..] == entries[i + 1..];
      var line := LineOf(entries[i]) + "\n";
      assert text + (line + Text(entries[i + 1..])) == (text + line) + Text(entries[i + 1..]);
      text := text + line;
    }
    assert text + "" == text;
  }

  /** Reads the entries line by line. */
  method Parse(text: string) returns (entries: seq<Entry>)
    ensures entries == EntriesIn(Tokens(text, '\n'))
  {
    var lines := Tokens(text, '\n');
    entries := [];
    for i := 0 to |lines|
      invariant entries == EntriesIn(lines[..i])
    {
      assert lines[..i + 1][..i] == lines[..i];
      var e := EntryOf(lines[i]);
      if e.None? {
        continue;
      }
      entries := entries + [e.value];
    }
    assert lines[..|lines|] == lines;
  }

  /** A key without equals sign and line end, a value without line end. */
  predicate IsPlain(e: Entry) {
    '=' !in e.key && '\n' !in e.key && '\n' !in e.value
  }

  lemma {:induction false} IndexAfter(a: string, c: char, b: string)
    requires c !in a
    ensures IndexOf(a + [c] + b, c) == |a|
  {
    var s := a + [c] + b;
    assert s[|a|] == c;
    assert forall i :: 0 <= i < |a| ==> s[i] == a[i] && a[i] in a;
  }

  lemma {:induction false} LineIsRead(e: Entry)
    requires IsPlain(e)
    ensures EntryOf(LineOf(e)) == Some(e) && '\n' !in LineOf(e) && LineOf(e) != ""
  {
    var line := LineOf(e);
    assert line == e.key + ['='] + e.value;
    IndexAfter(e.key, '=', e.value);
    assert line[..|e.key|] == e.key && line[|e.key| + 1..] == e.value;
  }

  lemma {:induction false} TokensOfLine(line: string, rest: string)
    requires line != "" && '\n' !in line
    ensures Tokens(line + "\n" + rest, '\n') == [line] + Tokens(rest, '\n')
  {
    var s := line + "\n" + rest;
    assert s == line + ['\n'] + rest;
    IndexAfter(line, '\n', rest);
    hide IndexOf;
    assert s[..|line|] == line && s[|line| + 1..] == rest;
  }

  lemma {:induction false} EntriesInFront(line: string, lines: seq<string>, e: Entry)
    requires EntryOf(line) == Some(e)
    ensures EntriesIn([line] + lines) == [e] + EntriesIn(lines)
  {
    hide EntryOf;
    if lines == [] {
      assert [line] + lines == [line] && [line][..0] == [];
    } else {
      var n := |lines| - 1;
      assert ([line] + lines)[..n + 1] == [line] + lines[..n];
      EntriesInFront(line, lines[..n], e);
    }
  }

  /** Reading a printed text gives back its entries. */
  lemma {:induction false} PrintedTextIsRead(entries: seq<Entry>)
    requires AllPlain(entries)
    ensures EntriesIn(Tokens(Text(entries), '\n')) == entries
  {
    if entries != [] {
      assert IsPlain(entries[0]) && AllPlain(entries[1..]);
      hide EntriesIn, EntryOf, LineOf, IsPlain, AllPlain, Tokens;
      PrintedTextIsRead(entries[1..]);
      LineIsRead(entries[0]);
      TokensOfLine(LineOf(entries[0]), Text(entries[1..]));
      EntriesInFront(LineOf(entries[0]), Tokens(Text(entries[1..]), '\n'), entries[0]);
    }
  }

  predicate AllPlain(entries: seq<Entry>) {
    forall i :: 0 <= i < |entries| ==> IsPlain(entries[i])
  }

  lemma PlainTogether(a: seq<Entry>, b: seq<Entry>)
    requires AllPlain(a) && AllPlain(b)
    ensures AllPlain(a + b)
  {
    hide IsPlain;
  }

  predicate PlainKeys(columns: seq<Column>) {
    forall i :: 0 <= i < |columns| ==> '=' !in columns[i].key && '\n' !in columns[i].key
  }

  lemma NumbersArePlain(n: int)
    ensures '\n' !in PrintInt(n)
  {
    var digits := PrintNat(if n < 0 then -n else n);
    assert forall i :: 0 <= i < |digits| ==> IsDigit(digits[i]);
  }

  lemma {:induction false} ColumnEntriesArePlain(columns: seq<Column>, l: Layout, n: nat)
    requires PlainKeys(columns) && l.Fits(|columns|) && n <= |columns|
    ensures AllPlain(ColumnEntries(columns, l, n))
  {
    hide EntriesOf, IsPlain, PlainKeys;
    if n == 0 {
      assert ColumnEntries(columns, l, 0) == [];
    } else {
      hide AllPlain;
      ColumnEntriesArePlain(columns, l, n - 1);
      EntriesOfArePlain(columns, l, n - 1);
      PlainTogether(ColumnEntries(columns, l, n - 1), EntriesOf(columns, l, n - 1));
    }
  }

  lemma EntriesOfArePlain(columns: seq<Column>, l: Layout, i: nat)
    requires PlainKeys(columns) && l.Fits(|columns|) && i < |columns|
    ensures AllPlain(EntriesOf(columns, l, i))
  {
    NumbersArePlain(l.widths[i]);
    NumbersArePlain(l.order[i]);
    hide PrintInt;
  }

  lemma HeadIsPlain(l: Layout)
    ensures AllPlain(HeadEntries(l))
  {
    NumbersArePlain(VERSION);
    NumbersArePlain(l.scope);
    hide PrintInt;
  }

  lemma SortIsPlain(l: Layout)
    ensures AllPlain(SortEntries(l))
  {
    NumbersArePlain(l.sortColumn);
    hide PrintInt;
  }

  lemma {:induction false} SavedIsPlain(columns: seq<Column>, l: Layout)
    requires PlainKeys(columns) && l.Fits(|columns|)
    ensures AllPlain(Saved(columns, l))
  {
    hide ColumnEntries, HeadEntries, SortEntries, AllPlain, PlainKeys;
    ColumnEntriesArePlain(columns, l, |columns|);
    HeadIsPlain(l);
    SortIsPlain(l);
    PlainTogether(HeadEntries(l), ColumnEntries(columns, l, |columns|));
    PlainTogether(SavedTo(columns, l, |columns|), SortEntries(l));
  }

  /** Loading the text of a saved layout restores it, whatever it was. */
  lemma {:induction false} SavedTextIsRestored(columns: seq<Column>, l: Layout)
    requires GoodKeys(columns) && PlainKeys(columns) && Usual(columns, l) && IsPermutation(l.order)
    ensures Migrated(columns, ReadAll(columns, Defaults(columns), EntriesIn(Tokens(Text(Saved(columns, l)), '\n')))) ==
            Restored(columns, l)
  {
    SavedLayoutIsRestored(columns, l);
    SavedIsPlain(columns, l);
    PrintedTextIsRead(Saved(columns, l));
    hide Saved, Text, Tokens, EntriesIn, Migrated, ReadAll, Defaults, Restored;
  }

  /** The file of the page's current layout. */
  method SaveFile(page: DetailsLayout) returns (text: string)
    requires page.Valid()
    ensures exists order :: Inverse(order, page.view)
    ensures forall order :: Inverse(order, page.view) ==>
      page.Current(order).Fits(|page.columns|) && text == Text(Saved(page.columns, page.Current(order)))
  {
    hide Text, Saved, Inverse;
    var entries := page.Save();
    text := Print(entries);
  }

  /** Loads a file's text, or the defaults when there is none. */
  method LoadFile(page: DetailsLayout, text: Option<string>)
    requires page.Valid()
    modifies page, page.visible, page.widths
    ensures page.Valid()
    ensures var entries := if text.Some? then EntriesIn(Tokens(text.value, '\n')) else [];
      var l := Migrated(page.columns, ReadAll(page.columns, Defaults(page.columns), entries));
      && page.treeMode == l.tree && page.scope == l.scope && page.heatmap == l.heatmap
      && page.visible[..] == l.visible[NAME := true] && page.widths[..] == l.widths && Inverse(l.order, page.view)
      && (if l.sortColumn >= 0 then page.sortColumn == l.sortColumn && page.sortDescending == l.descending
          else page.sortColumn == old(page.sortColumn) && page.sortDescending == old(page.sortDescending))
  {
    hide EntriesIn, Tokens, ReadAll, Defaults, Inverse, DefaultVisible, MigratedSort, IsPermutation;
    var file: Option<seq<Entry>> := None;
    if text.Some? {
      var entries := Parse(text.value);
      file := Some(entries);
    }
    page.Load(file);
  }
}
