/** Reading mountinfo in place (src/mountinfo.c): fields are cut out of the line buffer by
    overwriting the space behind them, decoded into fixed buffers, and handed to a visitor. */
module MountInfoReader {
  import opened Basics
  import opened Decimal
  import opened MountInfo

  // ----- Zero-terminated text -----

  function CString(s: seq<char>): (r: string)
    ensures |r| <= |s| && r == s[..|r|] && '\0' !in r && (|r| < |s| ==> s[|r|] == '\0')
  {
    if s == [] || s[0] == '\0' then [] else [s[0]] + CString(s[1..])
  }

  /** The string a pointer to index p of a buffer denotes. */
  function TextAt(buffer: seq<char>, p: nat): string
    requires p <= |buffer|
  {
    CString(buffer[p..])
  }

  lemma {:induction false} TextIs(buffer: seq<char>, p: nat, text: string)
    requires p + |text| < |buffer| && buffer[p..p + |text|] == text && '\0' !in text && buffer[p + |text|] == '\0'
    ensures TextAt(buffer, p) == text
    decreases |text|
  {
    assert buffer[p..][1..] == buffer[p + 1..];
    if text != "" {
      assert buffer[p..][0] == text[0] && text[0] in text;
      assert text[1..] == buffer[p + 1..p + |text|];
      assert forall c :: c in text[1..] ==> c in text;
      TextIs(buffer, p + 1, text[1..]);
      assert [text[0]] + text[1..] == text;
    }
  }

  /** The start of every field, each a string that ends before `end`. */
  ghost predicate Cuts(buffer: seq<char>, starts: seq<nat>, fields: seq<string>, end: nat) {
    && |starts| == |fields| && end < |buffer| && buffer[|buffer| - 1] == '\0'
    && forall i :: 0 <= i < |starts| ==> starts[i] + |fields[i]| <= end && TextAt(buffer, starts[i]) == fields[i]
  }

  lemma {:induction false} CutsStay(before: seq<char>, after: seq<char>, starts: seq<nat>, fields: seq<string>, end: nat, next: nat)
    requires Cuts(before, starts, fields, end) && |before| == |after| && end <= next < |after|
    requires before[..end] == after[..end] && forall i :: 0 <= i < |before| && before[i] == '\0' ==> after[i] == '\0'
    ensures Cuts(after, starts, fields, next)
  {
    forall i | 0 <= i < |starts| ensures TextAt(after, starts[i]) == fields[i] {
      StringStays(before, after, starts[i], end);
    }
    hide TextAt;
  }

  lemma StringStays(before: seq<char>, after: seq<char>, p: nat, end: nat)
    requires p <= end < |before| == |after| && before[|before| - 1] == '\0' && p + |TextAt(before, p)| <= end
    requires before[..end] == after[..end] && forall i :: 0 <= i < |before| && before[i] == '\0' ==> after[i] == '\0'
    ensures TextAt(after, p) == TextAt(before, p)
  {
    hide *;
    var f := TextAt(before, p);
    TextHolds(before, p);
    forall i | 0 <= i < |f| ensures after[p + i] == f[i] {
      assert before[..end][p + i] == after[..end][p + i];
    }
    assert after[p..p + |f|] == f;
    TextIs(after, p, f);
  }

  /** Where the next field begins and ends; both are at the end of the text when there is none. */
  method FindField(line: array<char>, cursor: nat) returns (begin: nat, end: nat)
    requires cursor < line.Length && line[line.Length - 1] == '\0'
    ensures var text := TextAt(line[..], cursor);
      var from, to := begin - cursor, end - cursor;
      && 0 <= from <= to <= |text|
      && NextOf(text) == if from == |text| then None else Some(Cut(text[from..to], if to < |text| then text[to + 1..] else ""))
  {
    hide *;
    ghost var text := TextAt(line[..], cursor);
    TextHolds(line[..], cursor);
    begin := cursor;
    while line[begin] != '\0' && IsSpace(line[begin])
      invariant cursor <= begin <= cursor + |text|
      invariant forall i :: 0 <= i < begin - cursor ==> IsSpace(text[i])
      decreases line.Length - begin
    {
      begin := begin + 1;
    }
    end := begin;
    while line[end] != '\0' && !IsSpace(line[end])
      invariant begin <= end <= cursor + |text|
      invariant forall i :: begin - cursor <= i < end - cursor ==> !IsSpace(text[i])
      decreases line.Length - end
    {
      end := end + 1;
    }
    assert begin < cursor + |text| ==> text[begin - cursor] == line[begin];
    assert end < cursor + |text| ==> text[end - cursor] == line[end];
    CutIs(text, begin - cursor, end - cursor);
  }

  /** Cuts the next field out of the line. */
  method NextField(line: array<char>, cursor: nat) returns (start: Option<nat>, next: nat)
    requires cursor < line.Length && line[line.Length - 1] == '\0'
    modifies line
    ensures cursor <= next < line.Length && line[..cursor] == old(line[..cursor])
    ensures forall i :: 0 <= i < line.Length && old(line[i]) == '\0' ==> line[i] == '\0'
    ensures match NextOf(TextAt(old(line[..]), cursor))
            case None => start.None? && line[..] == old(line[..]) && TextAt(line[..], next) == ""
            case Some(cut) =>
              && start.Some? && start.value + |cut.field| <= next
              && TextAt(line[..], start.value) == cut.field && TextAt(line[..], next) == cut.rest
  {
    hide NextOf, TextAt;
    ghost var before := line[..];
    var begin, end := FindField(line, cursor);
    TextHolds(before, cursor);
    AfterCut(before, cursor, begin, end);
    if line[begin] == '\0' {
      return None, begin;
    }
    start, next := Some(begin), end;
    if line[end] != '\0' {
      line[end] := '\0';
      next := end + 1;
    }
    assert line[..] == before[end := '\0'];
  }

  /** A terminator at the end of a field leaves the field and the rest of the text as strings. */
  lemma {:induction false} AfterCut(before: seq<char>, cursor: nat, begin: nat, end: nat)
    requires cursor < |before| && before[|before| - 1] == '\0' && cursor + |TextAt(before, cursor)| < |before|
    requires cursor <= begin <= end <= cursor + |TextAt(before, cursor)|
    ensures var text, after := TextAt(before, cursor), before[end := '\0'];
      && (before[begin] == '\0' <==> begin == cursor + |text|) && (before[end] == '\0' <==> end == cursor + |text|)
      && TextAt(after, begin) == text[begin - cursor..end - cursor]
      && (if end < cursor + |text| then TextAt(after, end + 1) == text[end - cursor + 1..] else TextAt(after, end) == "")
      && (begin == cursor + |text| ==> TextAt(before, begin) == "")
  {
    hide TextAt;
    var text, after := TextAt(before, cursor), before[end := '\0'];
    TextHolds(before, cursor);
    PartHolds(before, cursor, text, begin, end);
    TextIs(after, begin, text[begin - cursor..end - cursor]);
    if end < cursor + |text| {
      PartHolds(before, cursor, text, end + 1, cursor + |text|);
      assert after[end + 1..cursor + |text|] == before[end + 1..cursor + |text|];
      TextIs(after, end + 1, text[end - cursor + 1..]);
    } else {
      TextIs(after, end, "");
    }
    if begin == cursor + |text| {
      TextIs(before, begin, "");
    }
  }

  lemma PartHolds(buffer: seq<char>, p: nat, text: string, begin: nat, end: nat)
    requires p <= begin <= end <= p + |text| < |buffer| && '\0' !in text
    requires forall i :: 0 <= i < |text| ==> buffer[p + i] == text[i]
    ensures buffer[begin..end] == text[begin - p..end - p] && '\0' !in text[begin - p..end - p]
    ensures begin < p + |text| ==> buffer[begin] != '\0'
    ensures end < p + |text| ==> buffer[end] != '\0'
  {
    assert begin < p + |text| ==> buffer[begin] == text[begin - p] && text[begin - p] in text;
    assert end < p + |text| ==> buffer[end] == text[end - p] && text[end - p] in text;
    assert forall c :: c in text[begin - p..end - p] ==> c in text;
  }

  lemma TextHolds(buffer: seq<char>, p: nat)
    requires p < |buffer| && buffer[|buffer| - 1] == '\0'
    ensures var text := TextAt(buffer, p);
      && p + |text| < |buffer| && buffer[p + |text|] == '\0' && '\0' !in text
      && (forall i :: 0 <= i < |text| ==> buffer[p + i] == text[i] && text[i] != '\0')
  {
    var text := TextAt(buffer, p);
    assert text == buffer[p..][..|text|];
    assert forall i :: 0 <= i < |text| ==> text[i] in text;
    var last := |buffer| - 1;
    assert buffer[p..][last - p] == '\0';
  }

  /** The next field lies between the spaces before it and the first space or the end behind it. */
  lemma {:induction false} CutIs(text: string, from: nat, to: nat)
    requires from <= to <= |text|
    requires forall i :: 0 <= i < from ==> IsSpace(text[i])
    requires forall i :: from <= i < to ==> !IsSpace(text[i])
    requires to < |text| ==> IsSpace(text[to])
    requires from == to ==> from == |text|
    ensures NextOf(text) == if from == |text| then None else Some(Cut(text[from..to], if to < |text| then text[to + 1..] else ""))
  {
    hide SpacesBefore, FieldLength, IsSpace, NoSpaces;
    SpacesBeforeIs(text, from);
    var t := text[from..];
    FieldLengthIs(t, to - from) by {
      assert forall i :: 0 <= i < |t| ==> t[i] == text[from + i];
    }
    assert t[..to - from] == text[from..to];
    if to < |text| {
      assert t[to - from + 1..] == text[to + 1..];
    }
  }

  lemma SpacesBeforeIs(text: string, n: nat)
    requires n <= |text| && (forall i :: 0 <= i < n ==> IsSpace(text[i])) && (n < |text| ==> !IsSpace(text[n]))
    ensures SpacesBefore(text) == n
  {
    hide IsSpace;
  }

  lemma FieldLengthIs(text: string, n: nat)
    requires n <= |text| && (forall i :: 0 <= i < n ==> !IsSpace(text[i])) && (n < |text| ==> IsSpace(text[n]))
    ensures FieldLength(text) == n
  {
    hide IsSpace;
  }

  /** Cuts up to n fields, fewer when the line has fewer. */
  method TakeFields(line: array<char>, cursor: nat, n: nat) returns (starts: seq<nat>, next: nat)
    requires cursor < line.Length && line[line.Length - 1] == '\0'
    modifies line
    ensures cursor <= next < line.Length && line[..cursor] == old(line[..cursor]) && line[line.Length - 1] == '\0'
    ensures forall i :: 0 <= i < line.Length && old(line[i]) == '\0' ==> line[i] == '\0'
    ensures var fields := Fields(TextAt(old(line[..]), cursor));
      && |starts| == Min(n, |fields|) && Cuts(line[..], starts, fields[..|starts|], next)
      && Fields(TextAt(line[..], next)) == fields[|starts|..]
  {
    hide NextOf, TextAt, Fields, NoSpaces;
    ghost var fields := Fields(TextAt(line[..], cursor));
    starts, next := [], cursor;
    while |starts| < n
      invariant cursor <= next < line.Length && line[..cursor] == old(line[..cursor])
      invariant forall i :: 0 <= i < line.Length && old(line[i]) == '\0' ==> line[i] == '\0'
      invariant |starts| <= |fields| && |starts| <= n && Cuts(line[..], starts, fields[..|starts|], next)
      invariant Fields(TextAt(line[..], next)) == fields[|starts|..]
      decreases n - |starts|
    {
      var start: Option<nat>;
      start, starts, next := TakeField(line, next, starts, fields);
      if start.None? {
        return;
      }
    }
  }

  method TakeField(line: array<char>, cursor: nat, starts: seq<nat>, ghost fields: seq<string>)
    returns (start: Option<nat>, longer: seq<nat>, next: nat)
    requires cursor < line.Length && line[line.Length - 1] == '\0' && |starts| <= |fields|
    requires Cuts(line[..], starts, fields[..|starts|], cursor) && Fields(TextAt(line[..], cursor)) == fields[|starts|..]
    modifies line
    ensures cursor <= next < line.Length && line[..cursor] == old(line[..cursor])
    ensures forall i :: 0 <= i < line.Length && old(line[i]) == '\0' ==> line[i] == '\0'
    ensures start.None? <==> |starts| == |fields|
    ensures |longer| == Min(|fields|, |starts| + 1) && Cuts(line[..], longer, fields[..|longer|], next)
    ensures Fields(TextAt(line[..], next)) == fields[|longer|..]
  {
    hide NextOf, TextAt, Fields, NoSpaces;
    ghost var before, was := line[..], TextAt(line[..], cursor);
    FieldsUnfold(was);
    start, next := NextField(line, cursor);
    hide Cuts;
    CutsStay(before, line[..], starts, fields[..|starts|], cursor, next);
    longer := starts;
    if start.Some? {
      ghost var cut := NextOf(was).value;
      assert fields[|starts|] == fields[|starts|..][0] == cut.field;
      assert fields[|starts| + 1..] == fields[|starts|..][1..] == Fields(cut.rest);
      assert fields[..|starts| + 1] == fields[..|starts|] + [cut.field];
      longer := starts + [start.value];
      CutsOneMore(line[..], starts, fields[..|starts|], next, start.value, cut.field);
    } else {
      FieldsUnfold("");
      assert NextOf("").None? by {
        CutIs("", 0, 0);
      }
    }
  }

  lemma CutsOneMore(buffer: seq<char>, starts: seq<nat>, fields: seq<string>, end: nat, start: nat, field: string)
    requires Cuts(buffer, starts, fields, end) && start + |field| <= end && TextAt(buffer, start) == field
    ensures Cuts(buffer, starts + [start], fields + [field], end)
  {
    hide TextAt;
  }

  /** Writes the decoded text and its terminator into the buffer if it fits. */
  method DecodeMountField(encoded: string, decoded: array<char>) returns (ok: bool)
    requires decoded.Length > 0 && '\0' !in encoded
    modifies decoded
    ensures match Decode(encoded, decoded.Length)
            case None => !ok
            case Some(text) => ok && TextAt(decoded[..], 0) == text
    ensures !ok && Unescape(encoded).Some? ==> decoded[0] == '\0'
  {
    var output, input := 0, 0;
    assert encoded[0..] == encoded;
    NothingDone(decoded[..0], Unescape(encoded));
    while input < |encoded|
      invariant input <= |encoded| && output < decoded.Length && '\0' !in decoded[..output]
      invariant Unescape(encoded) ==
        match Unescape(encoded[input..]) case None => None case Some(rest) => Some(decoded[..output] + rest)
    {
      hide TextAt, Unescape;
      ghost var head := HeadOf(encoded[input..]);
      UnescapeUnfolds(encoded[input..]);
      var value := encoded[input];
      assert value in encoded;
      if value == '\\' {
        if input + 3 >= |encoded| || !IsOctal(encoded[input + 1]) || !IsOctal(encoded[input + 2]) || !IsOctal(encoded[input + 3]) {
          return false;
        }
        var octal := OctalValue(encoded[input + 1], encoded[input + 2], encoded[input + 3]);
        if octal == 0 || octal > 255 {
          return false;
        }
        value := octal as char;
        input := input + 3;
      }
      if output + 1 >= decoded.Length {
        decoded[0] := '\0';
        return false;
      }
      ghost var done := decoded[..output];
      decoded[output] := value;
      output := output + 1;
      input := input + 1;
      assert decoded[..output] == done + [value];
      assert head.value.0 == value;
      Regrouped(done, value, Unescape(encoded[input..]));
    }
    assert decoded[..output] + "" == decoded[..output];
    decoded[output] := '\0';
    ok := true;
    TextIs(decoded[..], 0, decoded[..output]);
  }

  lemma UnescapeUnfolds(s: string)
    requires s != ""
    ensures HeadOf(s).None? ==> Unescape(s).None?
    ensures HeadOf(s).Some? ==>
      var head := HeadOf(s).value;
      Unescape(s) == if Unescape(s[head.1..]).None? then None else Some([head.0] + Unescape(s[head.1..]).value)
  {
  }

  lemma NothingDone(done: string, rest: Option<string>)
    requires done == ""
    ensures rest.Some? ==> done + rest.value == rest.value
  {
  }

  lemma Regrouped(done: string, value: char, rest: Option<string>)
    ensures rest.Some? ==> done + ([value] + rest.value) == (done + [value]) + rest.value
  {
  }

  /** Parses one line, cutting it up; the fields stay where they are until they are decoded. */
  method ParseMountLine(line: array<char>) returns (entry: Option<Entry>)
    requires line.Length > 0 && line[line.Length - 1] == '\0'
    modifies line
    ensures entry == ParseLine(TextAt(old(line[..]), 0))
  {
    hide NextOf, TextAt, Fields, NoSpaces, ParseNat, Decoded, Separator;
    ghost var fields := Fields(TextAt(line[..], 0));
    var fixed, cursor := TakeFields(line, 0, FIXED);
    if |fixed| < FIXED {
      return None;
    }
    var root, target := TextAt(line[..], fixed[3]), TextAt(line[..], fixed[4]);
    if ParseNat(TextAt(line[..], fixed[0]), U64_MAX).None? || ParseNat(TextAt(line[..], fixed[1]), U64_MAX).None? ||
       !Rooted(root) || !Rooted(target) {
      return None;
    }
    var device := TextAt(line[..], fixed[2]);
    TextHolds(line[..], fixed[4]);
    var found: bool;
    ghost var at: nat;
    found, cursor, at := SkipOptional(line, cursor, fields, FIXED);
    if !found {
      return None;
    }
    var last, end := TakeFields(line, cursor, 3);
    if |last| < 3 {
      return None;
    }
    var filesystem, source := TextAt(line[..], last[0]), TextAt(line[..], last[1]);
    ghost var tail := fields[at + 1..];
    assert tail[..3][0] == tail[0] == fields[at + 1] && tail[..3][1] == tail[1] == fields[at + 2];
    assert tail[3..] == fields[at + 4..];
    TextHolds(line[..], last[0]);
    TextHolds(line[..], last[1]);
    FieldsUnfold(TextAt(line[..], end));
    var extra, _ := NextField(line, end);
    assert extra.None? <==> |fields| == at + 4;
    if extra.Some? {
      return None;
    }
    assert ParseLine(TextAt(old(line[..]), 0)) == Decoded(device, source, target, filesystem);
    entry := DecodeEntry(device, source, target, filesystem);
  }

  /** Skips the optional fields and the separator behind them. */
  method SkipOptional(line: array<char>, cursor: nat, ghost fields: seq<string>, ghost from: nat)
    returns (found: bool, next: nat, ghost at: nat)
    requires cursor < line.Length && line[line.Length - 1] == '\0'
    requires from <= |fields| && Fields(TextAt(line[..], cursor)) == fields[from..]
    modifies line
    ensures found == Separator(fields, from).Some?
    ensures next < line.Length && line[line.Length - 1] == '\0'
    ensures found ==> at == Separator(fields, from).value && Fields(TextAt(line[..], next)) == fields[at + 1..]
  {
    hide NextOf, TextAt, Fields, NoSpaces;
    next, at := cursor, from;
    while true
      invariant next < line.Length && line[line.Length - 1] == '\0'
      invariant from <= at <= |fields| && Separator(fields, from) == Separator(fields, at)
      invariant Fields(TextAt(line[..], next)) == fields[at..]
      decreases |fields| - at
    {
      ghost var was := TextAt(line[..], next);
      FieldsUnfold(was);
      var start: Option<nat>;
      start, next := NextField(line, next);
      if start.None? {
        assert fields[at..] == [];
        return false, next, at;
      }
      assert fields[at] == fields[at..][0] == NextOf(was).value.field;
      assert fields[at + 1..] == fields[at..][1..] == Fields(NextOf(was).value.rest);
      if TextAt(line[..], start.value) == "-" {
        return true, next, at;
      }
      at := at + 1;
    }
  }

  method DecodeEntry(device: string, source: string, target: string, filesystem: string) returns (entry: Option<Entry>)
    requires '\0' !in source && '\0' !in target && '\0' !in filesystem
    ensures entry == Decoded(device, source, target, filesystem)
  {
    var sourceBuffer, targetBuffer, typeBuffer := new char[PATH_SIZE], new char[PATH_SIZE], new char[TYPE_SIZE];
    var number := DeviceNumber(device);
    if number.None? {
      return None;
    }
    var sourceOk := DecodeMountField(source, sourceBuffer);
    if !sourceOk {
      return None;
    }
    var targetOk := DecodeMountField(target, targetBuffer);
    if !targetOk {
      return None;
    }
    var typeOk := DecodeMountField(filesystem, typeBuffer);
    if !typeOk {
      return None;
    }
    entry := Some(Entry(number.value.0, number.value.1,
                        TextAt(sourceBuffer[..], 0), TextAt(targetBuffer[..], 0), TextAt(typeBuffer[..], 0)));
  }

  // ----- The whole file -----

  /** The record of a line, which has to end with a newline. */
  function RecordOf(line: string): Option<Entry> {
    if line != "" && line[|line| - 1] == '\n' && '\0' !in line then ParseLine(line) else None
  }

  /** Reads one line from a copy of it; None for an incomplete or malformed one. */
  method ReadRecord(text: string) returns (entry: Option<Entry>)
    requires '\0' !in text
    ensures entry == RecordOf(text)
  {
    if text == "" || text[|text| - 1] != '\n' {
      return None;
    }
    var buffer := new char[|text| + 1](i requires 0 <= i <= |text| => if i < |text| then text[i] else '\0');
    assert buffer[..][0..|text|] == text;
    TextIs(buffer[..], 0, text);
    hide ParseLine, TextAt;
    entry := ParseMountLine(buffer);
  }

  predicate Taken(record: Option<Entry>, accepts: Entry -> bool) {
    record.Some? && accepts(record.value)
  }

  /** Hands every record to the visitor until a line is malformed or the visitor declines; the
      result is success only if every line was complete and its record accepted. */
  method VisitLines(lines: seq<string>, accepts: Entry -> bool) returns (visited: seq<Entry>, ok: bool)
    requires forall i :: 0 <= i < |lines| ==> '\0' !in lines[i]
    ensures |visited| <= |lines| && forall i :: 0 <= i < |visited| ==> RecordOf(lines[i]) == Some(visited[i])
    ensures forall i :: 0 <= i < |visited| - 1 ==> accepts(visited[i])
    ensures ok <==> forall i :: 0 <= i < |lines| ==> Taken(RecordOf(lines[i]), accepts)
    ensures ok ==> |visited| == |lines|
    ensures !ok ==> var n := |visited|;
      (n < |lines| && RecordOf(lines[n]).None?) || (n > 0 && !accepts(visited[n - 1]))
  {
    hide RecordOf;
    visited, ok := [], true;
    while |visited| < |lines|
      invariant ok && |visited| <= |lines|
      invariant forall i :: 0 <= i < |visited| ==> RecordOf(lines[i]) == Some(visited[i]) && accepts(visited[i])
      decreases |lines| - |visited|
    {
      var entry := ReadRecord(lines[|visited|]);
      if entry.None? {
        return visited, false;
      }
      visited := visited + [entry.value];
      if !accepts(entry.value) {
        assert !Taken(RecordOf(lines[|visited| - 1]), accepts);
        return visited, false;
      }
    }
  }
}
