/** The tab-separated history file: printing it (src/history_persistence.c) and streaming it back
    (history_load_record and history_load_path in src/history.c). */
module HistoryFile {
  import opened Basics
  import opened RecencyOrder
  import opened HistoryStore
  import opened HistoryMerge
  import opened HistoryModel
  import opened Decimal

  /** A record as it is saved; durations in microseconds, the six decimals of the file. */
  datatype Record = Record(
    key: string, name: string, user: string, identity: string,
    cpu: nat, active: nat, read: U64, write: U64, peak: U64, firstSeen: int, lastSeen: int)

  const HEADER: string := "# System-Monitor App History v1"
  const MAX_LINE: nat := 16384
  const FIELDS: nat := 11

  // ----- Printing -----

  predicate IsSeparator(c: char) {
    c == '\t' || c == '\r' || c == '\n'
  }

  function Sanitised(s: string): (r: string)
    ensures |r| == |s|
    ensures forall i :: 0 <= i < |s| ==> r[i] == if IsSeparator(s[i]) then ' ' else s[i]
  {
    if s == "" then "" else Sanitised(s[..|s| - 1]) + [if IsSeparator(s[|s| - 1]) then ' ' else s[|s| - 1]]
  }

  function Clean(r: Record): Record {
    r.(key := Sanitised(r.key), name := Sanitised(r.name), user := Sanitised(r.user), identity := Sanitised(r.identity))
  }

  function FieldsOf(r: Record): (f: seq<string>)
    ensures |f| == FIELDS
  {
    [Sanitised(r.key), Sanitised(r.name), Sanitised(r.user), Sanitised(r.identity),
     PrintSeconds(r.cpu), PrintSeconds(r.active),
     PrintNat(r.read), PrintNat(r.write), PrintNat(r.peak), PrintInt(r.firstSeen), PrintInt(r.lastSeen)]
  }

  function Joined(fields: seq<string>): string
    requires fields != []
  {
    if |fields| == 1 then fields[0] else fields[0] + "\t" + Joined(fields[1..])
  }

  function Line(r: Record): string {
    Joined(FieldsOf(r))
  }

  function Lines(records: seq<Record>): string {
    if records == [] then "" else Line(records[0]) + "\n" + Lines(records[1..])
  }

  function FileText(records: seq<Record>): string {
    HEADER + "\n" + Lines(records)
  }

  /** Copies one string of a record behind the cursor, replacing separators byte by byte. */
  method CopyRecordString(buffer: array<char>, cursor: nat, source: string) returns (next: nat)
    requires cursor + |source| + 1 <= buffer.Length
    modifies buffer
    ensures next == cursor + |source| + 1
    ensures buffer[..] == old(buffer[..cursor]) + Sanitised(source) + ['\0'] + old(buffer[next..])
  {
    next := cursor + |source| + 1;
    ghost var tail := buffer[next..];
    for i := 0 to |source|
      invariant buffer[..cursor] == old(buffer[..cursor]) && buffer[next..] == tail
      invariant buffer[cursor..cursor + i] == source[..i]
    {
      buffer[cursor + i] := source[i];
    }
    buffer[cursor + |source|] := '\0';
    for byte := 0 to |source|
      invariant buffer[..cursor] == old(buffer[..cursor]) && buffer[next..] == tail
      invariant buffer[cursor + |source|] == '\0'
      invariant forall j :: 0 <= j < byte ==> buffer[cursor + j] == Sanitised(source)[j]
      invariant forall j :: byte <= j < |source| ==> buffer[cursor + j] == source[j]
    {
      if IsSeparator(buffer[cursor + byte]) {
        buffer[cursor + byte] := ' ';
      }
    }
    assert buffer[cursor..cursor + |source|] == Sanitised(source);
    assert buffer[..] == buffer[..cursor] + buffer[cursor..cursor + |source|] + [buffer[cursor + |source|]] + buffer[next..];
  }

  /** Serialises the records of a request, one appended line each. */
  method Serialise(records: seq<Record>) returns (output: string)
    ensures output == FileText(records)
  {
    output := HEADER + "\n";
    for index := 0 to |records|
      invariant output + Lines(records[index..]) == FileText(records)
    {
      hide FieldsOf, Joined, FileText;
      var r := records[index];
      assert records[index..][1..] == records[index + 1..];
      var text := Joined(FieldsOf(r)) + "\n";
      assert output + (text + Lines(records[index + 1..])) == (output + text) + Lines(records[index + 1..]);
      output := output + text;
    }
    assert output + "" == output;
  }

  // ----- One line -----

  /** Splitting into at most n fields; the last one keeps further tabs. An empty text has none. */
  function Split(s: string, n: nat): seq<string>
    requires n > 0
  {
    if s == "" then [] else SplitSome(s, n)
  }

  function SplitSome(s: string, n: nat): seq<string>
    requires n > 0
  {
    var tab := IndexOf(s, '\t');
    if n == 1 || tab == |s| then [s] else [s[..tab]] + SplitSome(s[tab + 1..], n - 1)
  }

  datatype Parsed = Ignored | Rejected | Row(record: Record)

  function ParseLine(line: string): Parsed {
    if line == "" || line[0] == '#' then Ignored
    else
      var f := Split(line, FIELDS);
      if |f| < FIELDS then Rejected else ParseFields(f)
  }

  function ParseFields(f: seq<string>): Parsed
    requires |f| >= FIELDS
  {
    var cpu, active := ParseSeconds(f[4], U64_MAX), ParseSeconds(f[5], U64_MAX);
    var read, write, peak := ParseNat(f[6], U64_MAX), ParseNat(f[7], U64_MAX), ParseNat(f[8], U64_MAX);
    var firstSeen, lastSeen := ParseI64(f[9]), ParseI64(f[10]);
    if cpu.None? || active.None? || read.None? || write.None? || peak.None? || firstSeen.None? || lastSeen.None?
    then Rejected
    else Row(Record(f[0], f[1], f[2], f[3], cpu.value, active.value, read.value, write.value, peak.value,
                    firstSeen.value, lastSeen.value))
  }

  /** The numbers of a record that the file format can hold. */
  predicate InRange(r: Record) {
    && r.cpu <= U64_MAX * MICROS && r.active <= U64_MAX * MICROS
    && I64_MIN <= r.firstSeen <= I64_MAX && I64_MIN <= r.lastSeen <= I64_MAX
  }

  lemma TabEndsField(field: string, rest: string)
    requires '\t' !in field
    ensures IndexOf(field + "\t" + rest, '\t') == |field|
    ensures (field + "\t" + rest)[..|field|] == field && (field + "\t" + rest)[|field| + 1..] == rest
  {
    var s := field + "\t" + rest;
    assert s[|field|] == '\t';
    assert forall i :: 0 <= i < |field| ==> s[i] == field[i];
  }

  lemma {:induction false} SplitAtTab(field: string, rest: string, n: nat)
    requires '\t' !in field && n > 1
    ensures SplitSome(field + "\t" + rest, n) == [field] + SplitSome(rest, n - 1)
  {
    TabEndsField(field, rest);
    hide IndexOf;
    assert SplitSome(field + "\t" + rest, n) == [field] + SplitSome(rest, n - 1);
  }

  lemma {:induction false} SplitJoined(fields: seq<string>)
    requires fields != [] && forall i :: 0 <= i < |fields| ==> '\t' !in fields[i]
    ensures SplitSome(Joined(fields), |fields|) == fields
  {
    hide *;
    JoinedUnfolds(fields);
    if |fields| == 1 {
      LastField(fields[0]);
      assert fields == [fields[0]];
    } else {
      var rest := fields[1..];
      SplitAtTab(fields[0], Joined(rest), |fields|);
      SplitJoined(rest);
      assert fields == [fields[0]] + rest;
    }
  }

  lemma JoinedUnfolds(fields: seq<string>)
    requires fields != []
    ensures Joined(fields) == if |fields| == 1 then fields[0] else fields[0] + "\t" + Joined(fields[1..])
  {
  }

  lemma LastField(field: string)
    ensures SplitSome(field, 1) == [field]
  {
  }

  lemma DigitsHaveNoSeparator(s: string)
    requires AllDigits(s)
    ensures '\t' !in s && '\n' !in s && '\r' !in s
  {
  }

  ghost predicate Clear(s: string) {
    '\t' !in s && '\n' !in s && '\r' !in s
  }

  lemma NumbersAreClear(n: nat, m: int)
    ensures Clear(PrintNat(n)) && Clear(PrintSeconds(n)) && Clear(PrintInt(m))
  {
    DigitsHaveNoSeparator(PrintNat(n));
    DigitsHaveNoSeparator(PrintNat(if m < 0 then -m else m));
    DigitsHaveNoSeparator(PrintNat(n / MICROS));
    DigitsHaveNoSeparator(PrintPadded(n % MICROS, 6));
  }

  lemma SanitisedIsClear(s: string)
    ensures Clear(Sanitised(s))
  {
  }

  lemma FieldsOfUnfolds(r: Record)
    ensures FieldsOf(r) ==
      [Sanitised(r.key), Sanitised(r.name), Sanitised(r.user), Sanitised(r.identity),
       PrintSeconds(r.cpu), PrintSeconds(r.active),
       PrintNat(r.read), PrintNat(r.write), PrintNat(r.peak), PrintInt(r.firstSeen), PrintInt(r.lastSeen)]
    ensures FIELDS == 11
  {
    hide Sanitised, PrintSeconds, PrintNat, PrintInt;
  }

  lemma FieldsAreClear(r: Record)
    ensures forall i :: 0 <= i < FIELDS ==> Clear(FieldsOf(r)[i])
  {
    hide *;
    NumbersAreClear(r.cpu, r.firstSeen);
    NumbersAreClear(r.active, r.lastSeen);
    NumbersAreClear(r.read, 0);
    NumbersAreClear(r.write, 0);
    NumbersAreClear(r.peak, 0);
    SanitisedIsClear(r.key);
    SanitisedIsClear(r.name);
    SanitisedIsClear(r.user);
    SanitisedIsClear(r.identity);
    FieldsOfUnfolds(r);
  }

  lemma {:induction false} JoinedHasOnlyTabs(fields: seq<string>)
    requires fields != [] && forall i :: 0 <= i < |fields| ==> Clear(fields[i])
    ensures '\n' !in Joined(fields) && '\r' !in Joined(fields)
  {
    if |fields| == 1 {
      assert Clear(fields[0]);
    } else {
      JoinedHasOnlyTabs(fields[1..]);
      assert Clear(fields[0]) && Joined(fields) == fields[0] + "\t" + Joined(fields[1..]);
    }
  }

  lemma ParseSavedFields(r: Record)
    requires InRange(r)
    ensures ParseFields(FieldsOf(r)) == Row(Clean(r))
  {
    ParsePrintedSeconds(r.cpu, U64_MAX);
    ParsePrintedSeconds(r.active, U64_MAX);
    ParsePrintedInt(r.firstSeen);
    ParsePrintedInt(r.lastSeen);
    hide ParseSeconds, PrintSeconds, PrintNat, PrintInt, ParseI64, Sanitised;
  }

  /** One saved line gives back its record, with the separators in its texts turned into blanks;
      a record whose key starts with a hash sign is skipped without a trace. */
  lemma {:induction false} ParseSavedLine(r: Record)
    requires InRange(r)
    ensures '\n' !in Line(r) && '\r' !in Line(r)
    ensures ParseLine(Line(r)) == if r.key != "" && r.key[0] == '#' then Ignored else Row(Clean(r))
  {
    var fields := FieldsOf(r);
    FieldsAreClear(r);
    JoinedHasOnlyTabs(fields);
    assert Clear(fields[0]);
    SplitJoined(fields);
    ParseSavedFields(r);
    assert Line(r) == fields[0] + "\t" + Joined(fields[1..]);
    hide Joined, SplitSome, ParseFields;
  }

  /** The layout of a line, written out. */
  lemma LineIs(r: Record)
    ensures Line(r) ==
      Sanitised(r.key) + "\t" + (Sanitised(r.name) + "\t" + (Sanitised(r.user) + "\t" + (Sanitised(r.identity) + "\t" +
      (PrintSeconds(r.cpu) + "\t" + (PrintSeconds(r.active) + "\t" +
      (PrintNat(r.read) + "\t" + (PrintNat(r.write) + "\t" + (PrintNat(r.peak) + "\t" +
      (PrintInt(r.firstSeen) + "\t" + PrintInt(r.lastSeen))))))))))
  {
    hide *;
    var f := FieldsOf(r);
    FieldsOfUnfolds(r);
    LineIsJoined(r);
    JoinedEleven(f);
  }

  lemma JoinedEleven(f: seq<string>)
    requires |f| == 11
    ensures Joined(f) ==
      f[0] + "\t" + (f[1] + "\t" + (f[2] + "\t" + (f[3] + "\t" + (f[4] + "\t" + (f[5] + "\t" +
      (f[6] + "\t" + (f[7] + "\t" + (f[8] + "\t" + (f[9] + "\t" + f[10])))))))))
  {
    hide *;
    JoinedFour(f);
    JoinedFour(f[4..]);
    assert f[4..][4..] == f[8..];
    JoinedMore(f[8..]);
    assert f[8..][1..] == f[9..];
    JoinedMore(f[9..]);
    assert f[9..][1..] == f[10..];
    JoinedUnfolds(f[10..]);
  }

  lemma JoinedFour(f: seq<string>)
    requires |f| > 4
    ensures Joined(f) == f[0] + "\t" + (f[1] + "\t" + (f[2] + "\t" + (f[3] + "\t" + Joined(f[4..]))))
  {
    hide *;
    JoinedMore(f);
    JoinedMore(f[1..]);
    assert f[1..][1..] == f[2..];
    JoinedMore(f[2..]);
    assert f[2..][1..] == f[3..];
    JoinedMore(f[3..]);
    assert f[3..][1..] == f[4..];
  }

  lemma JoinedMore(fields: seq<string>)
    requires |fields| > 1
    ensures Joined(fields) == fields[0] + "\t" + Joined(fields[1..])
  {
  }

  lemma LineIsJoined(r: Record)
    ensures Line(r) == Joined(FieldsOf(r))
  {
    hide Joined, FieldsOf;
  }

  /** The tabs of a line. */
  function Tabs(s: string): nat {
    if s == "" then 0 else Tabs(s[1..]) + if s[0] == '\t' then 1 else 0
  }

  lemma SplitUnfolds(s: string, n: nat)
    requires n > 0
    ensures var tab := IndexOf(s, '\t');
      && tab <= |s| && (tab < |s| ==> s[tab] == '\t') && (forall i :: 0 <= i < tab ==> s[i] != '\t')
      && |SplitSome(s, n)| == if n == 1 || tab == |s| then 1 else 1 + |SplitSome(s[tab + 1..], n - 1)|
  {
  }

  lemma {:induction false} SplitCounts(s: string, n: nat)
    requires n > 0
    ensures |SplitSome(s, n)| == if Tabs(s) + 1 < n then Tabs(s) + 1 else n
    decreases n
  {
    hide *;
    var tab := IndexOf(s, '\t');
    SplitUnfolds(s, n);
    TabsFrom(s, tab);
    if tab == |s| {
      assert s[tab..] == "";
      NoTabs();
    } else if n > 1 {
      SplitCounts(s[tab + 1..], n - 1);
    }
  }

  lemma NoTabs()
    ensures Tabs("") == 0
  {
  }

  lemma {:induction false} TabsFrom(s: string, n: nat)
    requires n <= |s| && forall i :: 0 <= i < n ==> s[i] != '\t'
    ensures Tabs(s) == Tabs(s[n..])
    ensures n < |s| && s[n] == '\t' ==> Tabs(s) == Tabs(s[n + 1..]) + 1
    decreases n
  {
    if n == 0 {
      assert s[0..] == s;
    } else {
      assert s[1..][n - 1..] == s[n..];
      TabsFrom(s[1..], n - 1);
      assert n < |s| ==> s[1..][n - 1 + 1..] == s[n + 1..];
    }
  }

  /** A line is ignored when it is empty or a comment, and counts as lost when it has fewer than
      eleven columns. */
  lemma {:induction false} ShortLinesAreRejected(line: string)
    ensures ParseLine(line) == Ignored <==> line == "" || line[0] == '#'
    ensures line != "" && line[0] != '#' && Tabs(line) < 10 ==> ParseLine(line) == Rejected
  {
    SplitCounts(line, FIELDS);
    hide SplitSome, Tabs, ParseFields;
    if line != "" && line[0] != '#' && Tabs(line) >= 10 {
      FieldsAreNotIgnored(Split(line, FIELDS));
    }
  }

  lemma FieldsAreNotIgnored(f: seq<string>)
    requires |f| >= FIELDS
    ensures ParseFields(f) != Ignored
  {
    hide ParseNat, ParseSeconds, ParseI64;
  }

  // ----- The file as a stream of lines -----

  /** A line the reader accepts, without its line end, or one that does not fit its buffer. */
  datatype Chunk = Whole(line: string) | Overlong

  function StripEnd(s: string): string {
    if s != "" && (s[|s| - 1] == '\n' || s[|s| - 1] == '\r') then StripEnd(s[..|s| - 1]) else s
  }

  /** What one pass of the reading loop takes from a non-empty text, and how many characters. */
  function FirstChunk(text: string): (r: (Chunk, nat))
    requires text != ""
    ensures 0 < r.1 <= |text|
  {
    var end := IndexOf(text, '\n');
    if end < |text| then (if end + 1 < MAX_LINE then Whole(StripEnd(text[..end + 1])) else Overlong, end + 1)
    else (if end + 1 < MAX_LINE then Whole(StripEnd(text)) else Overlong, end)
  }

  function Chunks(text: string): seq<Chunk> {
    if text == "" then [] else [FirstChunk(text).0] + Chunks(text[FirstChunk(text).1..])
  }

  /** A loaded record before any snapshot touches it. */
  function EntryOf(r: Record): Entry {
    Entry(r.key, r.name, r.user, r.identity, r.cpu * 1000, r.active * 1000, r.read, r.write, r.peak, 0, 0,
          r.firstSeen, r.lastSeen)
  }

  function RowOf(c: Chunk): seq<Entry> {
    if c.Whole? && ParseLine(c.line).Row? then [EntryOf(ParseLine(c.line).record)] else []
  }

  function Rows(chunks: seq<Chunk>): seq<Entry> {
    if chunks == [] then [] else RowOf(chunks[0]) + Rows(chunks[1..])
  }

  /** Loaded records have no current memory and belong to no snapshot. */
  lemma {:induction false} RowsAreFresh(chunks: seq<Chunk>)
    ensures forall i :: 0 <= i < |Rows(chunks)| ==> Rows(chunks)[i].live == 0 && Rows(chunks)[i].current == 0
  {
    if chunks != [] {
      RowsAreFresh(chunks[1..]);
      hide ParseLine;
    }
  }

  predicate IsBad(c: Chunk) {
    c.Overlong? || ParseLine(c.line).Rejected?
  }

  predicate AnyBad(chunks: seq<Chunk>) {
    exists i :: 0 <= i < |chunks| && IsBad(chunks[i])
  }

  /** One fgets call and what follows it for a line that is too long. */
  method ReadLine(text: string, start: nat) returns (chunk: Chunk, next: nat)
    requires start < |text|
    ensures (chunk, next - start) == FirstChunk(text[start..]) && start < next <= |text|
  {
    ghost var rest := text[start..];
    ghost var newline := IndexOf(rest, '\n');
    next := start;
    while next < |text| && next - start < MAX_LINE - 1 && (next == start || text[next - 1] != '\n')
      invariant start <= next <= |text| && next - start <= MAX_LINE - 1
      invariant forall i :: start <= i < next - 1 ==> text[i] != '\n'
    {
      next := next + 1;
    }
    assert forall i :: 0 <= i < |rest| ==> rest[i] == text[start + i];
    var complete := text[next - 1] == '\n';
    var endOfFile := next - start < MAX_LINE - 1;
    if !complete && !endOfFile {
      while next < |text| && text[next] != '\n'
        invariant start < next <= |text| && forall i :: start <= i < next ==> text[i] != '\n'
        invariant next - start >= MAX_LINE - 1
      {
        next := next + 1;
      }
      assert newline == next - start;
      if next < |text| {
        next := next + 1;
      }
      chunk := Overlong;
    } else {
      assert newline == if complete then next - start - 1 else next - start;
      assert text[start..next] == rest[..next - start];
      var line := text[start..next];
      while line != "" && (line[|line| - 1] == '\n' || line[|line| - 1] == '\r')
        invariant StripEnd(line) == StripEnd(text[start..next])
        decreases |line|
      {
        line := line[..|line| - 1];
      }
      chunk := Whole(line);
      assert line == StripEnd(line);
      assert !complete ==> next == |text| && text[start..next] == rest;
    }
  }

  /** One line of the file; true when it must not survive the next save. */
  method LoadLine(model: Model, line: string) returns (truncated: bool)
    requires model.Valid()
    modifies model`entries, model`entryCount
    ensures model.Valid()
    ensures match ParseLine(line)
            case Row(r) => LoadStep(old(model.entries), EntryOf(r), model.entries, truncated)
            case Ignored => model.entries == old(model.entries) && !truncated
            case Rejected => model.entries == old(model.entries) && truncated
  {
    match ParseLine(line)
    case Ignored => truncated := false;
    case Rejected => truncated := true;
    case Row(r) => truncated := model.LoadRecord(EntryOf(r));
  }

  /** The reader's table and its report after the given chunks: when their rows have different
      keys, the newest of them are kept, and a loss is reported exactly when a row was dropped,
      malformed or too long. */
  ghost predicate Streamed(chunks: seq<Chunk>, m: Entries, truncated: bool) {
    DistinctKeys(Rows(chunks)) ==>
      && KeepsNewest(Rows(chunks), m)
      && (truncated <==> |Rows(chunks)| > LIMIT || AnyBad(chunks))
  }

  /** Streams a whole file into an empty model. */
  method LoadText(model: Model, text: string) returns (truncated: bool)
    requires model.Valid() && model.entries == map[]
    modifies model`entries, model`entryCount
    ensures model.Valid() && Streamed(Chunks(text), model.entries, truncated)
    ensures DistinctKeys(Rows(Chunks(text))) ==> FreshlyLoaded(model.entries)
  {
    truncated := false;
    var position := 0;
    ghost var done: seq<Chunk> := [];
    hide *;
    NothingStreamed();
    assert text[0..] == text;
    assert [] + Chunks(text) == Chunks(text);
    while position < |text|
      invariant position <= |text| && model.Valid()
      invariant done + Chunks(text[position..]) == Chunks(text)
      invariant Streamed(done, model.entries, truncated)
      decreases |text| - position
    {
      ghost var before := model.entries;
      ChunksUnfold(text[position..]);
      var chunk, next := ReadLine(text, position);
      assert text[position..][next - position..] == text[next..];
      assert done + ([chunk] + Chunks(text[next..])) == done + [chunk] + Chunks(text[next..]);
      var lost := LoadChunk(model, chunk);
      OneMoreChunk(done, chunk, before, model.entries, truncated, lost);
      truncated := truncated || lost;
      done := done + [chunk];
      position := next;
    }
    ChunksUnfold(text[position..]);
    assert done + [] == done;
    StreamedIsFresh(Chunks(text), model.entries, truncated);
  }

  /** What was streamed can be merged. */
  lemma {:induction false} StreamedIsFresh(chunks: seq<Chunk>, m: Entries, truncated: bool)
    requires Streamed(chunks, m, truncated)
    ensures DistinctKeys(Rows(chunks)) ==> FreshlyLoaded(m)
  {
    hide Rows, AnyBad, DistinctKeys;
    RowsAreFresh(chunks);
    if DistinctKeys(Rows(chunks)) {
      forall k | k in m ensures m[k].live == 0 && m[k].current == 0 {
        var i :| 0 <= i < |Rows(chunks)| && Rows(chunks)[i] == m[k];
      }
    }
  }

  lemma NothingStreamed()
    ensures Streamed([], map[], false)
  {
  }

  lemma ChunksUnfold(text: string)
    ensures text == "" ==> Chunks(text) == []
    ensures text != "" ==> Chunks(text) == [FirstChunk(text).0] + Chunks(text[FirstChunk(text).1..])
  {
  }

  /** Loads one line, or counts it as lost. */
  method LoadChunk(model: Model, chunk: Chunk) returns (lost: bool)
    requires model.Valid()
    modifies model`entries, model`entryCount
    ensures model.Valid() && ChunkStep(chunk, old(model.entries), model.entries, lost)
  {
    hide LoadStep, ParseLine;
    lost := true;
    if chunk.Whole? {
      lost := LoadLine(model, chunk.line);
    }
  }

  ghost predicate ChunkStep(c: Chunk, m: Entries, m': Entries, lost: bool) {
    if c.Overlong? then m' == m && lost
    else match ParseLine(c.line)
      case Row(r) => LoadStep(m, EntryOf(r), m', lost)
      case Ignored => m' == m && !lost
      case Rejected => m' == m && lost
  }

  lemma OneMoreChunk(chunks: seq<Chunk>, c: Chunk, m: Entries, m': Entries, truncated: bool, lost: bool)
    requires Streamed(chunks, m, truncated) && ChunkStep(c, m, m', lost)
    ensures Streamed(chunks + [c], m', truncated || lost)
  {
    RowsAppend(chunks, c);
    BadAppend(chunks, c);
    hide AnyBad, Rows, ParseLine;
    var rows := Rows(chunks);
    if DistinctKeys(rows + RowOf(c)) {
      PrefixStaysDistinct(rows, RowOf(c));
      hide DistinctKeys, KeepsNewest, LoadStep;
      if c.Whole? && ParseLine(c.line).Row? {
        LoadStepKeepsNewest(rows, m, EntryOf(ParseLine(c.line).record), m', lost);
      } else {
        assert rows + [] == rows;
      }
    }
  }

  lemma PrefixStaysDistinct(a: seq<Entry>, b: seq<Entry>)
    requires DistinctKeys(a + b)
    ensures DistinctKeys(a)
  {
    forall i, j | 0 <= i < j < |a| ensures a[i].key != a[j].key {
      assert (a + b)[i] == a[i] && (a + b)[j] == a[j];
    }
  }

  lemma {:induction false} RowsAppend(chunks: seq<Chunk>, c: Chunk)
    ensures Rows(chunks + [c]) == Rows(chunks) + RowOf(c)
  {
    if chunks == [] {
      assert [c][1..] == [];
    } else {
      assert (chunks + [c])[1..] == chunks[1..] + [c];
      RowsAppend(chunks[1..], c);
    }
  }

  lemma RowsCons(c: Chunk, chunks: seq<Chunk>)
    ensures Rows([c] + chunks) == RowOf(c) + Rows(chunks)
    ensures AnyBad([c] + chunks) <==> IsBad(c) || AnyBad(chunks)
  {
    hide IsBad;
    var all := [c] + chunks;
    assert all[1..] == chunks && all[0] == c;
    if AnyBad(chunks) {
      var i :| 0 <= i < |chunks| && IsBad(chunks[i]);
      assert IsBad(all[i + 1]);
    }
  }

  lemma BadAppend(chunks: seq<Chunk>, c: Chunk)
    ensures AnyBad(chunks + [c]) <==> AnyBad(chunks) || IsBad(c)
  {
    hide IsBad;
    var all := chunks + [c];
    if AnyBad(chunks) {
      var i :| 0 <= i < |chunks| && IsBad(chunks[i]);
      assert IsBad(all[i]);
    }
    assert all[|chunks|] == c;
  }

  lemma {:induction false} NewlineIsStripped(s: string)
    ensures StripEnd(s + "\n") == StripEnd(s)
  {
    assert (s + "\n")[..|s|] == s;
  }

  /** Lines end at newlines, and the last one of a file needs none. */
  lemma {:induction false} LastLineNeedsNoNewline(text: string)
    requires text != "" && text[|text| - 1] != '\n'
    ensures Chunks(text + "\n") == Chunks(text)
  {
    var longer, end := text + "\n", IndexOf(text, '\n');
    hide IndexOf;
    if end < |text| {
      FirstLineOfMore(text);
      LastLineNeedsNoNewline(text[end + 1..]);
      assert longer[end + 1..] == text[end + 1..] + "\n";
    } else {
      NewlineAt(text, "");
      assert longer + "" == longer;
      NewlineIsStripped(text);
      assert longer[..|text| + 1] == longer && longer[|text| + 1..] == "" && text[|text|..] == "";
    }
  }

  lemma FirstLineOfMore(text: string)
    requires IndexOf(text, '\n') < |text|
    ensures IndexOf(text + "\n", '\n') == IndexOf(text, '\n')
    ensures FirstChunk(text + "\n") == FirstChunk(text)
  {
    hide *;
    FirstNewlineStays(text);
    FirstLineSame(text, text + "\n", IndexOf(text, '\n'));
  }

  lemma FirstLineSame(text: string, longer: string, end: nat)
    requires text <= longer && end < |text| && IndexOf(text, '\n') == IndexOf(longer, '\n') == end
    ensures FirstChunk(longer) == FirstChunk(text)
  {
    hide *;
    FirstLineIs(text, end);
    FirstLineIs(longer, end);
    assert longer[..end + 1] == text[..end + 1];
  }

  lemma FirstLineIs(text: string, end: nat)
    requires end < |text| && IndexOf(text, '\n') == end
    ensures FirstChunk(text) == (if end + 1 < MAX_LINE then Whole(StripEnd(text[..end + 1])) else Overlong, end + 1)
  {
    hide IndexOf, StripEnd;
  }

  lemma {:induction false} FirstNewlineStays(text: string)
    requires IndexOf(text, '\n') < |text|
    ensures IndexOf(text + "\n", '\n') == IndexOf(text, '\n')
  {
    if text[0] != '\n' {
      assert (text + "\n")[1..] == text[1..] + "\n";
      FirstNewlineStays(text[1..]);
    }
  }

  // ----- Saving and reloading -----

  lemma NewlineAt(line: string, rest: string)
    requires '\n' !in line
    ensures IndexOf(line + "\n" + rest, '\n') == |line|
  {
    var text := line + "\n" + rest;
    assert text[|line|] == '\n';
    assert forall i :: 0 <= i < |line| ==> text[i] == line[i];
  }

  lemma ChunksOfLine(line: string, rest: string)
    requires '\n' !in line && '\r' !in line && |line| + 1 < MAX_LINE
    ensures Chunks(line + "\n" + rest) == [Whole(line)] + Chunks(rest)
  {
    var text := line + "\n" + rest;
    NewlineAt(line, rest);
    assert text[..|line| + 1] == line + "\n" && text[|line| + 1..] == rest;
    assert (line + "\n")[..|line|] == line;
    assert StripEnd(line + "\n") == StripEnd(line) == line;
  }

  /** What a saved record is reloaded as. */
  function Reloaded(r: Record): Entry {
    EntryOf(Clean(r))
  }

  /** Field by field. */
  lemma {:induction false} ReloadedFields(r: Record)
    ensures var e := Reloaded(r);
      && e.key == Sanitised(r.key) && e.name == Sanitised(r.name)
      && e.user == Sanitised(r.user) && e.identity == Sanitised(r.identity)
      && e.cpu == r.cpu * 1000 && e.active == r.active * 1000 && e.read == r.read && e.write == r.write
      && e.peak == r.peak && e.current == 0 && e.live == 0 && e.firstSeen == r.firstSeen && e.lastSeen == r.lastSeen
  {
  }

  /** Its line starts like a comment. */
  predicate Hashed(r: Record) {
    r.key != "" && r.key[0] == '#'
  }

  /** Its line fits the reader's buffer. */
  predicate Fits(r: Record) {
    |Line(r)| + 1 < MAX_LINE
  }

  predicate Survives(r: Record) {
    !Hashed(r) && Fits(r)
  }

  /** The records whose lines are read back. */
  function Kept(records: seq<Record>): (k: seq<Record>)
    ensures forall r :: r in k <==> r in records && Survives(r)
    ensures |k| <= |records| && (|k| == |records| <==> forall r :: r in records ==> Survives(r))
  {
    if records == [] then []
    else
      assert records == [records[0]] + records[1..];
      (if Survives(records[0]) then [records[0]] else []) + Kept(records[1..])
  }

  function ReloadedAll(records: seq<Record>): (r: seq<Entry>)
    ensures |r| == |records| && forall i :: 0 <= i < |r| ==> r[i] == Reloaded(records[i])
  {
    if records == [] then [] else [Reloaded(records[0])] + ReloadedAll(records[1..])
  }

  lemma LongLineChunk(line: string, rest: string)
    requires '\n' !in line && |line| + 1 >= MAX_LINE
    ensures Chunks(line + "\n" + rest) == [Overlong] + Chunks(rest)
  {
    var text := line + "\n" + rest;
    NewlineAt(line, rest);
    assert text[|line| + 1..] == rest;
  }

  /** The chunk of a saved line. */
  function ChunkOf(r: Record): Chunk {
    if Fits(r) then Whole(Line(r)) else Overlong
  }

  lemma SavedLineChunk(r: Record, rest: string)
    requires InRange(r)
    ensures Chunks(Line(r) + "\n" + rest) == [ChunkOf(r)] + Chunks(rest)
    ensures RowOf(ChunkOf(r)) == (if Survives(r) then [Reloaded(r)] else [])
    ensures IsBad(ChunkOf(r)) <==> !Fits(r)
  {
    ParseSavedLine(r);
    if Fits(r) {
      ChunksOfLine(Line(r), rest);
    } else {
      LongLineChunk(Line(r), rest);
    }
    hide Chunks, Line;
  }

  lemma ReloadedCons(r: Record, records: seq<Record>)
    ensures ReloadedAll([r] + records) == [Reloaded(r)] + ReloadedAll(records)
  {
    assert ([r] + records)[1..] == records;
  }

  lemma KeptUnfolds(records: seq<Record>)
    ensures records == [] ==> Kept(records) == []
    ensures records != [] ==> Kept(records) == (if Survives(records[0]) then [records[0]] else []) + Kept(records[1..])
  {
    hide Survives;
  }

  lemma {:induction false} SavedLinesReload(records: seq<Record>)
    requires forall r :: r in records ==> InRange(r)
    ensures Rows(Chunks(Lines(records))) == ReloadedAll(Kept(records))
    ensures AnyBad(Chunks(Lines(records))) <==> exists r :: r in records && !Fits(r)
  {
    hide Chunks, Line, Rows, AnyBad, RowOf, IsBad, Reloaded, InRange, Survives, Fits, Kept, ReloadedAll, ChunkOf;
    KeptUnfolds(records);
    if records == [] {
      NothingSaved();
    } else {
      var first, rest := records[0], records[1..];
      assert records == [first] + rest;
      SavedLinesReload(rest);
      SavedLineChunk(first, Lines(rest));
      RowsCons(ChunkOf(first), Chunks(Lines(rest)));
      ReloadedCons(first, Kept(rest));
      assert [] + Kept(rest) == Kept(rest);
    }
  }

  lemma NothingSaved()
    ensures Rows(Chunks(Lines([]))) == ReloadedAll([]) && !AnyBad(Chunks(Lines([])))
  {
  }

  lemma HeaderIsIgnored(rest: string)
    ensures Chunks(HEADER + "\n" + rest) == [Whole(HEADER)] + Chunks(rest)
    ensures ParseLine(HEADER) == Ignored
  {
    assert '\n' !in HEADER && '\r' !in HEADER && |HEADER| + 1 < MAX_LINE;
    assert HEADER[0] == '#';
    ChunksOfLine(HEADER, rest);
  }

  lemma HeaderGivesNothing()
    ensures RowOf(Whole(HEADER)) == [] && !IsBad(Whole(HEADER))
  {
    HeaderIsIgnored("");
    hide Chunks, ParseLine;
  }

  lemma FileTextIs(records: seq<Record>)
    ensures FileText(records) == HEADER + "\n" + Lines(records)
  {
    hide Lines;
  }

  /** The whole file: its rows are the saved records in order, without those whose line starts with
      a hash sign or does not fit the reader's buffer; only the latter are noticed. */
  lemma {:induction false} SavedFileReloads(records: seq<Record>)
    requires forall r :: r in records ==> InRange(r)
    ensures Rows(Chunks(FileText(records))) == ReloadedAll(Kept(records))
    ensures AnyBad(Chunks(FileText(records))) <==> exists r :: r in records && !Fits(r)
  {
    hide *;
    SavedLinesReload(records);
    HeaderIsIgnored(Lines(records));
    HeaderGivesNothing();
    FileTextIs(records);
    var chunks := Chunks(Lines(records));
    RowsCons(Whole(HEADER), chunks);
    assert [] + Rows(chunks) == Rows(chunks);
  }

  /** No two records are saved under one key. */
  ghost predicate Apart(records: seq<Record>) {
    forall i, j :: 0 <= i < j < |records| ==> Sanitised(records[i].key) != Sanitised(records[j].key)
  }

  lemma {:induction false} KeptStayApart(records: seq<Record>)
    requires Apart(records)
    ensures DistinctKeys(ReloadedAll(Kept(records)))
  {
    hide *;
    KeptUnfolds(records);
    if records == [] {
      NothingIsApart();
    } else {
      var first, rest := records[0], records[1..];
      FirstStandsApart(records);
      KeptStayApart(rest);
      KeptIsPart(rest);
      if Survives(first) {
        ReloadedCons(first, Kept(rest));
        RowsOfKept(rest);
        DistinctCons(Reloaded(first), ReloadedAll(Kept(rest)));
      } else {
        assert [] + Kept(rest) == Kept(rest);
      }
    }
  }

  lemma NothingIsApart()
    ensures DistinctKeys(ReloadedAll([]))
  {
  }

  lemma FirstStandsApart(records: seq<Record>)
    requires Apart(records) && records != []
    ensures Apart(records[1..]) && Reloaded(records[0]).key == Sanitised(records[0].key)
    ensures forall r :: r in records[1..] ==> Sanitised(r.key) != Sanitised(records[0].key)
  {
    hide Sanitised;
  }

  lemma DistinctCons(e: Entry, rows: seq<Entry>)
    requires DistinctKeys(rows) && forall i :: 0 <= i < |rows| ==> rows[i].key != e.key
    ensures DistinctKeys([e] + rows)
  {
  }

  lemma KeptIsPart(records: seq<Record>)
    ensures forall r :: r in Kept(records) <==> r in records && Survives(r)
    ensures |Kept(records)| <= |records| && (|Kept(records)| == |records| <==> forall r :: r in records ==> Survives(r))
  {
    hide Survives;
  }

  /** What came back of a saved record. */
  predicate CameBack(r: Record, m: Entries) {
    Sanitised(r.key) in m && m[Sanitised(r.key)] == Reloaded(r)
  }

  /** Round trip: reloading what was saved, with separators in its texts turned into blanks, gives
      back every record if and only if they fit the retention bound, no key starts with a hash sign
      and no line is too long; a loss by a hash sign is the only one not reported. `m` and
      `truncated` are what the reader produces. */
  lemma {:induction false} SaveAndReload(records: seq<Record>, m: Entries, truncated: bool)
    requires (forall r :: r in records ==> InRange(r)) && Apart(records)
    requires Streamed(Chunks(FileText(records)), m, truncated)
    ensures KeepsNewest(ReloadedAll(Kept(records)), m)
    ensures truncated <==> |Kept(records)| > LIMIT || exists r :: r in records && !Fits(r)
    ensures (forall r :: r in records ==> CameBack(r, m)) <==> |records| <= LIMIT && forall r :: r in records ==> Survives(r)
  {
    hide *;
    SavedFileReloads(records);
    KeptStayApart(records);
    KeptIsPart(records);
    StreamedMeans(Chunks(FileText(records)), m, truncated);
    var rows := ReloadedAll(Kept(records));
    RowsOfKept(records);
    if |records| <= LIMIT && forall r :: r in records ==> Survives(r) {
      AllComeBack(records, m);
    }
    if forall r :: r in records ==> CameBack(r, m) {
      OnlyKeptComeBack(records, m);
    }
  }

  lemma StreamedMeans(chunks: seq<Chunk>, m: Entries, truncated: bool)
    requires Streamed(chunks, m, truncated) && DistinctKeys(Rows(chunks))
    ensures KeepsNewest(Rows(chunks), m)
    ensures truncated <==> |Rows(chunks)| > LIMIT || AnyBad(chunks)
  {
    hide KeepsNewest, DistinctKeys, Rows, AnyBad;
  }

  lemma RowsOfKept(records: seq<Record>)
    ensures var rows := ReloadedAll(Kept(records));
      |rows| == |Kept(records)| && forall i :: 0 <= i < |rows| ==> rows[i] == Reloaded(Kept(records)[i]) && rows[i].key == Sanitised(Kept(records)[i].key)
  {
    hide Kept, Sanitised;
  }

  lemma {:induction false} AllComeBack(records: seq<Record>, m: Entries)
    requires Apart(records) && |records| <= LIMIT && forall r :: r in records ==> Survives(r)
    requires KeepsNewest(ReloadedAll(Kept(records)), m)
    ensures forall r :: r in records ==> CameBack(r, m)
  {
    hide *;
    var rows := ReloadedAll(Kept(records));
    KeptStayApart(records);
    KeptIsPart(records);
    RowsOfKept(records);
    AllKept(rows, m);
    forall r | r in records ensures CameBack(r, m) {
      var i :| 0 <= i < |Kept(records)| && Kept(records)[i] == r;
      assert rows[i] in rows;
      BackIn(r, m);
    }
  }

  lemma BackIn(r: Record, m: Entries)
    ensures CameBack(r, m) <==> Sanitised(r.key) in m && m[Sanitised(r.key)] == Reloaded(r)
  {
    hide Sanitised;
  }

  lemma {:induction false} OnlyKeptComeBack(records: seq<Record>, m: Entries)
    requires Apart(records) && KeepsNewest(ReloadedAll(Kept(records)), m)
    requires forall r :: r in records ==> CameBack(r, m)
    ensures |records| <= LIMIT && forall r :: r in records ==> Survives(r)
  {
    hide *;
    var rows := ReloadedAll(Kept(records));
    KeptIsPart(records);
    RowsOfKept(records);
    KeptStayApart(records);
    forall r | r in records ensures Survives(r) {
      BackIn(r, m);
      KeyFromRow(rows, m, Sanitised(r.key));
      var i :| 0 <= i < |rows| && rows[i].key == Sanitised(r.key);
      SameKeySame(records, Kept(records)[i], r);
    }
    forall e | e in rows ensures e.key in m {
      var i :| 0 <= i < |rows| && rows[i] == e;
      BackIn(Kept(records)[i], m);
    }
    DroppedWhenOver(rows, m);
  }

  lemma KeyFromRow(rows: seq<Entry>, m: Entries, k: string)
    requires KeepsNewest(rows, m) && k in m
    ensures exists i :: 0 <= i < |rows| && rows[i].key == k
  {
    assert m[k] in rows;
    var i :| 0 <= i < |rows| && rows[i] == m[k];
    assert rows[i].key == k;
  }

  lemma SameKeySame(records: seq<Record>, a: Record, b: Record)
    requires Apart(records) && a in records && b in records && Sanitised(a.key) == Sanitised(b.key)
    ensures a == b
  {
    hide Sanitised;
  }

  /** A witness: a saved record is lost on reload and nothing is reported. */
  lemma {:induction false} HashedRecordIsLost(m: Entries, truncated: bool)
    requires var r := Record("#1", "", "", "", 0, 0, 0, 0, 0, 0, 0);
      Streamed(Chunks(FileText([r])), m, truncated)
    ensures m == map[] && !truncated
  {
    hide *;
    var r := Record("#1", "", "", "", 0, 0, 0, 0, 0, 0, 0);
    OneHashed(r);
    SaveAndReload([r], m, truncated);
    KeptUnfolds([r]);
    KeptUnfolds([]);
    NothingKept(m);
  }

  lemma OneHashed(r: Record)
    requires r == Record("#1", "", "", "", 0, 0, 0, 0, 0, 0, 0)
    ensures InRange(r) && Apart([r]) && !Survives(r) && Fits(r) && [r][1..] == []
  {
    hide Sanitised;
    LineOfZeros(r);
  }

  lemma NothingKept(m: Entries)
    requires KeepsNewest(ReloadedAll([]), m)
    ensures m == map[]
  {
  }

  lemma LineOfZeros(r: Record)
    requires r == Record("#1", "", "", "", 0, 0, 0, 0, 0, 0, 0)
    ensures |Line(r)| < 1000
  {
  }

  // ----- Durations finer than the file's six decimals -----

  /** The nearest microsecond. */
  function Rounded(nanos: nat): nat {
    (nanos + 500) / 1000
  }

  /** A model's record as it is printed. */
  function RecordOf(e: Entry): Record {
    Record(e.key, e.name, e.user, e.identity, Rounded(e.cpu), Rounded(e.active), e.read, e.write, e.peak, e.firstSeen, e.lastSeen)
  }

  lemma SanitisedOnce(s: string)
    ensures Sanitised(Sanitised(s)) == Sanitised(s)
  {
  }

  /** Saving and reloading changes a duration by at most half a microsecond, no counter and no
      time, and a second save and reload changes nothing more. */
  lemma {:induction false} RoundingIsSmallAndOnce(e: Entry)
    ensures var l := Reloaded(RecordOf(e));
      && -500 <= l.cpu - e.cpu <= 500 && -500 <= l.active - e.active <= 500
      && l.read == e.read && l.write == e.write && l.peak == e.peak && l.firstSeen == e.firstSeen && l.lastSeen == e.lastSeen
      && l.key == Sanitised(e.key) && l.name == Sanitised(e.name)
      && l.user == Sanitised(e.user) && l.identity == Sanitised(e.identity)
      && Reloaded(RecordOf(l)) == l
  {
    SanitisedOnce(e.key);
    SanitisedOnce(e.name);
    SanitisedOnce(e.user);
    SanitisedOnce(e.identity);
    hide Sanitised;
  }
}
