/** The parser of /proc/PID/mountinfo (src/mountinfo.c), and lines in which every separator of the
    parser is escaped. The kernel escapes fewer characters: see MountInfoKernel. */
module MountInfo {
  import opened Basics
  import opened Decimal

  datatype Entry = Entry(major: nat, minor: nat, source: string, target: string, filesystem: string)

  const PATH_SIZE: nat := 512
  const TYPE_SIZE: nat := 64

  // ----- Fields -----

  predicate IsSpace(c: char) {
    c == ' ' || c == '\t' || c == '\n' || c == '\U{0B}' || c == '\U{0C}' || c == '\r'
  }

  predicate NoSpaces(s: string) {
    forall i :: 0 <= i < |s| ==> !IsSpace(s[i])
  }

  function SpacesBefore(s: string): (n: nat)
    ensures n <= |s| && (n < |s| ==> !IsSpace(s[n])) && forall i :: 0 <= i < n ==> IsSpace(s[i])
  {
    if s == "" || !IsSpace(s[0]) then 0 else 1 + SpacesBefore(s[1..])
  }

  function FieldLength(s: string): (n: nat)
    ensures n <= |s| && (n < |s| ==> IsSpace(s[n])) && forall i :: 0 <= i < n ==> !IsSpace(s[i])
  {
    if s == "" || IsSpace(s[0]) then 0 else 1 + FieldLength(s[1..])
  }

  datatype Cut = Cut(field: string, rest: string)

  /** The next field of a text and what follows the space that ends it. */
  function NextOf(s: string): (r: Option<Cut>)
    ensures r.Some? ==> r.value.field != "" && NoSpaces(r.value.field) && |r.value.rest| < |s|
  {
    var t := s[SpacesBefore(s)..];
    var n := FieldLength(t);
    if t == "" then None else Some(Cut(t[..n], if n < |t| then t[n + 1..] else ""))
  }

  /** All fields of a text. */
  function Fields(s: string): (r: seq<string>)
    ensures forall i :: 0 <= i < |r| ==> r[i] != "" && NoSpaces(r[i])
    decreases |s|
  {
    match NextOf(s)
    case None => []
    case Some(cut) => [cut.field] + Fields(cut.rest)
  }

  lemma {:induction false} FieldsUnfold(text: string)
    ensures Fields(text) == match NextOf(text) case None => [] case Some(cut) => [cut.field] + Fields(cut.rest)
  {
  }

  // ----- Escapes -----

  predicate IsOctal(c: char) {
    '0' <= c <= '7'
  }

  function OctalValue(a: char, b: char, c: char): nat
    requires IsOctal(a) && IsOctal(b) && IsOctal(c)
  {
    64 * (a as int - '0' as int) + 8 * (b as int - '0' as int) + (c as int - '0' as int)
  }

  /** The character at the start of an encoded text and the length of its encoding. */
  function HeadOf(s: string): (r: Option<(char, nat)>)
    requires s != ""
    ensures r.Some? ==> 0 < r.value.1 <= |s|
  {
    if s[0] != '\\' then Some((s[0], 1))
    else if |s| < 4 || !IsOctal(s[1]) || !IsOctal(s[2]) || !IsOctal(s[3]) then None
    else
      var value := OctalValue(s[1], s[2], s[3]);
      if value == 0 || value > 255 then None else Some((value as char, 4))
  }

  /** Undoes the octal escapes; None for a malformed one. */
  function Unescape(s: string): Option<string> {
    if s == "" then Some("")
    else match HeadOf(s)
      case None => None
      case Some(head) =>
        match Unescape(s[head.1..])
        case None => None
        case Some(rest) => Some([head.0] + rest)
  }

  /** The text of a field, if it fits a buffer of this size with its terminator. */
  function Decode(s: string, size: nat): Option<string> {
    match Unescape(s)
    case None => None
    case Some(text) => if |text| < size then Some(text) else None
  }

  // ----- One line -----

  function DeviceNumber(s: string): Option<(nat, nat)> {
    var colon := IndexOf(s, ':');
    if colon == |s| then None
    else match (ParseNat(s[..colon], U32_MAX), ParseNat(s[colon + 1..], U32_MAX))
      case (Some(major), Some(minor)) => Some((major, minor))
      case _ => None
  }

  /** Where the separator is among the fields from index i on. */
  function Separator(fields: seq<string>, i: nat): (r: Option<nat>)
    requires i <= |fields|
    ensures r.Some? ==> i <= r.value < |fields| && fields[r.value] == "-"
    ensures forall j :: i <= j < (if r.Some? then r.value else |fields|) ==> fields[j] != "-"
    decreases |fields| - i
  {
    if i == |fields| then None else if fields[i] == "-" then Some(i) else Separator(fields, i + 1)
  }

  const FIXED: nat := 6

  predicate Rooted(s: string) {
    s != "" && s[0] == '/'
  }

  /** Six fixed fields, optional fields up to a separator, then exactly three fields. */
  function EntryOf(f: seq<string>): Option<Entry> {
    if |f| < FIXED then None
    else if ParseNat(f[0], U64_MAX).None? || ParseNat(f[1], U64_MAX).None? || !Rooted(f[3]) || !Rooted(f[4]) then None
    else match Separator(f, FIXED)
      case None => None
      case Some(s) => if |f| != s + 4 then None else Decoded(f[2], f[s + 2], f[4], f[s + 1])
  }

  function Decoded(device: string, source: string, target: string, filesystem: string): Option<Entry> {
    match DeviceNumber(device)
    case None => None
    case Some(number) =>
      match (Decode(source, PATH_SIZE), Decode(target, PATH_SIZE), Decode(filesystem, TYPE_SIZE))
      case (Some(s), Some(t), Some(f)) => Some(Entry(number.0, number.1, s, t, f))
      case _ => None
  }

  function ParseLine(line: string): Option<Entry> {
    EntryOf(Fields(line))
  }

  // ----- Mounts, and lines with all separators escaped -----

  /** A mount as the kernel knows it; strings of bytes other than NUL. */
  datatype Mount = Mount(
    id: nat, parent: nat, major: nat, minor: nat, root: string, target: string, options: string,
    optional: seq<string>, filesystem: string, source: string, superOptions: string)

  predicate Bytes(s: string) {
    forall i :: 0 <= i < |s| ==> 0 < s[i] as int < 256
  }

  predicate Plain(s: string) {
    s != "" && NoSpaces(s)
  }

  /** What the kernel guarantees about the unescaped columns and the paths. */
  predicate Printable(m: Mount) {
    && m.id <= U64_MAX && m.parent <= U64_MAX && m.major <= U32_MAX && m.minor <= U32_MAX
    && Bytes(m.root) && Bytes(m.target) && Bytes(m.filesystem) && Bytes(m.source)
    && Rooted(m.root) && Rooted(m.target) && m.filesystem != ""
    && Plain(m.options) && Plain(m.superOptions) && Bytes(m.options) && Bytes(m.superOptions)
    && forall i :: 0 <= i < |m.optional| ==> Plain(m.optional[i]) && Bytes(m.optional[i]) && m.optional[i] != "-"
  }

  function Octal(c: char): (r: string)
    requires 0 < c as int < 256
    ensures |r| == 4 && r[0] == '\\' && IsOctal(r[1]) && IsOctal(r[2]) && IsOctal(r[3])
    ensures OctalValue(r[1], r[2], r[3]) == c as int
  {
    var v := c as int;
    ['\\', DigitChar(v / 64), DigitChar(v / 8 % 8), DigitChar(v % 8)]
  }

  function Escape(s: string): string
    requires Bytes(s)
  {
    if s == "" then ""
    else (if IsSpace(s[0]) || s[0] == '\\' then Octal(s[0]) else [s[0]]) + Escape(s[1..])
  }

  function FieldsOf(m: Mount): (r: seq<string>)
    requires Printable(m)
    ensures |r| == FIXED + |m.optional| + 4
  {
    [PrintNat(m.id), PrintNat(m.parent), PrintNat(m.major) + ":" + PrintNat(m.minor), Escape(m.root), Escape(m.target), m.options] +
    m.optional + ["-", Escape(m.filesystem), Escape(m.source), m.superOptions]
  }

  /** The fields separated by spaces and ended by a newline. */
  function Joined(fields: seq<string>): string {
    if fields == [] then "" else fields[0] + (if |fields| == 1 then "\n" else " ") + Joined(fields[1..])
  }

  /** The line of a mount with every separator of the parser escaped, vertical tab, form feed and
      carriage return included. */
  function PrintLine(m: Mount): string
    requires Printable(m)
  {
    Joined(FieldsOf(m))
  }

  // ----- Fields of a joined text -----

  function NonEmpty(fields: seq<string>): (r: seq<string>) {
    if fields == [] then [] else (if fields[0] == "" then [] else [fields[0]]) + NonEmpty(fields[1..])
  }

  lemma {:induction false} FieldComesFirst(field: string, space: char, rest: string)
    requires Plain(field) && IsSpace(space)
    ensures NextOf(field + [space] + rest) == Some(Cut(field, rest))
  {
    var s := field + [space] + rest;
    assert s[0] == field[0];
    assert SpacesBefore(s) == 0;
    assert s[0..] == s;
    assert forall i :: 0 <= i < |field| ==> s[i] == field[i];
    assert s[|field|] == space;
    assert FieldLength(s) == |field|;
    assert s[..|field|] == field && s[|field| + 1..] == rest;
  }

  lemma {:induction false} NextSkipsSpace(space: char, rest: string)
    requires IsSpace(space)
    ensures NextOf([space] + rest) == NextOf(rest)
  {
    var s, n := [space] + rest, SpacesBefore(rest);
    assert SpacesBefore(s) == 1 + n by {
      assert s[1..] == rest;
    }
    hide SpacesBefore, FieldLength, NoSpaces, IsSpace;
    assert s[1 + n..] == rest[n..];
  }

  lemma {:induction false} SpaceIsSkipped(space: char, rest: string)
    requires IsSpace(space)
    ensures Fields([space] + rest) == Fields(rest)
  {
    NextSkipsSpace(space, rest);
    hide NextOf;
  }

  /** Reading a joined text gives back its fields, but for empty ones. */
  lemma {:induction false} FieldsOfJoined(fields: seq<string>)
    requires forall i :: 0 <= i < |fields| ==> NoSpaces(fields[i])
    ensures Fields(Joined(fields)) == NonEmpty(fields)
  {
    if fields == [] {
    } else {
      var space := if |fields| == 1 then '\n' else ' ';
      var rest := Joined(fields[1..]);
      FieldsOfJoined(fields[1..]);
      assert Joined(fields) == fields[0] + [space] + rest;
      if fields[0] == "" {
        assert Joined(fields) == [space] + rest;
        SpaceIsSkipped(space, rest);
      } else {
        FieldComesFirst(fields[0], space, rest);
      }
    }
  }

  lemma {:induction false} NoneEmpty(fields: seq<string>)
    requires forall i :: 0 <= i < |fields| ==> fields[i] != ""
    ensures NonEmpty(fields) == fields
  {
    if fields != [] {
      NoneEmpty(fields[1..]);
    }
  }

  lemma {:induction false} NonEmptyConcat(a: seq<string>, b: seq<string>)
    ensures NonEmpty(a + b) == NonEmpty(a) + NonEmpty(b)
  {
    if a == [] {
      assert a + b == b;
    } else {
      assert (a + b)[1..] == a[1..] + b;
      NonEmptyConcat(a[1..], b);
    }
  }

  // ----- Round trips -----

  lemma {:induction false} EscapedIsPlain(s: string)
    requires Bytes(s)
    ensures NoSpaces(Escape(s)) && (Escape(s) == "" <==> s == "")
    ensures Rooted(s) ==> Rooted(Escape(s))
  {
    if s != "" {
      EscapedIsPlain(s[1..]);
    }
  }

  lemma {:induction false} EscapedIsBytes(s: string)
    requires Bytes(s)
    ensures Bytes(Escape(s))
  {
    if s != "" {
      EscapedIsBytes(s[1..]);
    }
  }

  /** Undoing the escapes gives back every text. */
  lemma {:induction false} UnescapeEscaped(s: string)
    requires Bytes(s)
    ensures Unescape(Escape(s)) == Some(s)
  {
    if s != "" {
      UnescapeEscaped(s[1..]);
      var head := if IsSpace(s[0]) || s[0] == '\\' then Octal(s[0]) else [s[0]];
      var e := Escape(s);
      assert e == head + Escape(s[1..]);
      assert forall i :: 0 <= i < |head| ==> e[i] == head[i];
      assert HeadOf(e) == Some((s[0], |head|));
      assert e[|head|..] == Escape(s[1..]);
      assert [s[0]] + s[1..] == s;
    }
  }

  /** s encodes t: every character by itself, unless it is a backslash, or by a backslash and the three
      octal digits of its byte. */
  ghost predicate Encodes(s: string, t: string)
    decreases |t|
  {
    if t == "" then s == ""
    else
      || (s != "" && s[0] == t[0] != '\\' && Encodes(s[1..], t[1..]))
      || (0 < t[0] as int < 256 && Octal(t[0]) <= s && Encodes(s[4..], t[1..]))
  }

  lemma OctalDigits(a: char, b: char, c: char)
    requires IsOctal(a) && IsOctal(b) && IsOctal(c) && 0 < OctalValue(a, b, c) < 256
    ensures Octal(OctalValue(a, b, c) as char) == ['\\', a, b, c]
  {
    var x, y, z := a as int - '0' as int, b as int - '0' as int, c as int - '0' as int;
    assert (64 * x + 8 * y + z) / 64 == x && (64 * x + 8 * y + z) / 8 == 8 * x + y && (8 * x + y) % 8 == y;
  }

  lemma HeadEncodes(s: string, c: char, n: nat)
    requires s != ""
    ensures HeadOf(s) == Some((c, n)) <==>
      || (n == 1 && s[0] == c != '\\')
      || (n == 4 && 0 < c as int < 256 && Octal(c) <= s)
    ensures 0 < c as int < 256 && Octal(c) <= s ==> |s| >= 4
  {
    if 0 < c as int < 256 && Octal(c) <= s {
      assert s[0] == Octal(c)[0] && s[1] == Octal(c)[1] && s[2] == Octal(c)[2] && s[3] == Octal(c)[3];
    }
    if HeadOf(s) == Some((c, n)) && n == 4 {
      OctalDigits(s[1], s[2], s[3]);
      assert s[..4] == Octal(c);
    }
  }

  /** Decoding succeeds for encoded texts only, and gives what they encode. */
  lemma {:induction false} UnescapeDecodes(s: string, t: string)
    ensures Unescape(s) == Some(t) <==> Encodes(s, t)
    decreases |s|
  {
    if s != "" && t != "" {
      HeadEncodes(s, t[0], 1);
      HeadEncodes(s, t[0], 4);
      if HeadOf(s).Some? {
        HeadEncodes(s, HeadOf(s).value.0, HeadOf(s).value.1);
      }
      hide HeadOf, Octal;
      assert t == [t[0]] + t[1..];
      assert forall c: char, rest: string :: ([c] + rest)[0] == c && ([c] + rest)[1..] == rest;
      UnescapeDecodes(s[1..], t[1..]);
      if |s| >= 4 {
        UnescapeDecodes(s[4..], t[1..]);
      }
    }
  }

  lemma {:induction false} DeviceNumberPrinted(major: nat, minor: nat)
    requires major <= U32_MAX && minor <= U32_MAX
    ensures DeviceNumber(PrintNat(major) + ":" + PrintNat(minor)) == Some((major, minor))
    ensures Plain(PrintNat(major) + ":" + PrintNat(minor))
  {
    var a, b := PrintNat(major), PrintNat(minor);
    var s := a + ":" + b;
    assert forall i :: 0 <= i < |a| ==> s[i] == a[i] && IsDigit(s[i]);
    assert s[|a|] == ':';
    assert IndexOf(s, ':') == |a|;
    assert s[..|a|] == a && s[|a| + 1..] == b;
  }

  predicate FitsBuffers(m: Mount) {
    |m.source| < PATH_SIZE && |m.target| < PATH_SIZE && |m.filesystem| < TYPE_SIZE
  }

  function FieldsBeforeSource(m: Mount): (r: seq<string>)
    requires Printable(m)
    ensures |r| == FIXED + |m.optional| + 2
  {
    [PrintNat(m.id), PrintNat(m.parent), PrintNat(m.major) + ":" + PrintNat(m.minor), Escape(m.root), Escape(m.target), m.options] +
    m.optional + ["-", Escape(m.filesystem)]
  }

  lemma {:induction false} FieldsBeforeSourceArePlain(m: Mount)
    requires Printable(m)
    ensures forall i :: 0 <= i < FIXED + |m.optional| + 2 ==> Plain(FieldsBeforeSource(m)[i])
  {
    EscapedIsPlain(m.root);
    EscapedIsPlain(m.target);
    EscapedIsPlain(m.filesystem);
    DeviceNumberPrinted(m.major, m.minor);
    DigitsArePlain(m.id);
    DigitsArePlain(m.parent);
    assert Plain("-");
    hide Escape, PrintNat, IsSpace, Bytes, NoSpaces, Rooted;
    assert Plain(Escape(m.root)) && Plain(Escape(m.target)) && Plain(Escape(m.filesystem));
    hide Plain;
    var f := FieldsBeforeSource(m);
    assert forall i :: 0 <= i < |m.optional| ==> f[FIXED + i] == m.optional[i];
    forall i | 0 <= i < |f| ensures Plain(f[i]) {
      if FIXED <= i < FIXED + |m.optional| {
        assert f[i] == m.optional[i - FIXED];
      }
    }
  }

  function ParsedFields(m: Mount): seq<string>
    requires Printable(m)
  {
    FieldsBeforeSource(m) + ((if m.source == "" then [] else [Escape(m.source)]) + [m.superOptions])
  }

  lemma {:induction false} FieldsOfPrinted(m: Mount)
    requires Printable(m)
    ensures Fields(PrintLine(m)) == ParsedFields(m)
  {
    EscapedIsPlain(m.source);
    FieldsBeforeSourceArePlain(m);
    assert Plain(m.superOptions);
    var before := FieldsBeforeSource(m);
    assert FieldsOf(m) == before + ([Escape(m.source)] + [m.superOptions]);
    hide Escape, IsSpace, FieldsBeforeSource, FieldsOf, NoSpaces;
    PlainFieldsAndSource(before, Escape(m.source), m.superOptions);
  }

  lemma {:induction false} PlainFieldsAndSource(before: seq<string>, source: string, last: string)
    requires forall i :: 0 <= i < |before| ==> Plain(before[i])
    requires NoSpaces(source) && Plain(last)
    ensures Fields(Joined(before + ([source] + [last]))) == before + ((if source == "" then [] else [source]) + [last])
  {
    hide *;
    var fields := before + ([source] + [last]);
    forall i | 0 <= i < |before| ensures NoSpaces(before[i]) && before[i] != "" {
      PlainMeans(before[i]);
    }
    PlainMeans(last);
    FieldsOfJoined(fields);
    NonEmptyConcat(before, [source] + [last]);
    NonEmptyConcat([source], [last]);
    NoneEmpty(before);
    NonEmptyOne(source);
    NonEmptyOne(last);
  }

  lemma PlainMeans(s: string)
    requires Plain(s)
    ensures NoSpaces(s) && s != ""
  {
    hide NoSpaces;
  }

  lemma NonEmptyOne(field: string)
    ensures NonEmpty([field]) == if field == "" then [] else [field]
  {
    assert [field][1..] == [];
  }

  lemma DigitsArePlain(n: nat)
    ensures Plain(PrintNat(n))
  {
  }

  lemma {:induction false} SeparatorComesAt(fields: seq<string>, i: nat, at: nat)
    requires i <= at < |fields| && fields[at] == "-" && forall j :: i <= j < at ==> fields[j] != "-"
    ensures Separator(fields, i) == Some(at)
  {
  }

  /** Reading a line with all separators escaped recovers device number, source, target and type,
      whatever the optional fields, exactly when the source is not empty and the texts fit their
      buffers. */
  lemma {:induction false} PrintedLineParses(m: Mount)
    requires Printable(m)
    ensures ParseLine(PrintLine(m)) ==
      if m.source != "" && FitsBuffers(m) then Some(Entry(m.major, m.minor, m.source, m.target, m.filesystem)) else None
  {
    FieldsOfPrinted(m);
    EntryOfPrinted(m);
    hide Fields, PrintLine, ParsedFields, EntryOf;
  }

  lemma {:induction false} EntryOfPrinted(m: Mount)
    requires Printable(m)
    ensures EntryOf(ParsedFields(m)) ==
      if m.source != "" && FitsBuffers(m) then Some(Entry(m.major, m.minor, m.source, m.target, m.filesystem)) else None
  {
    var f := ParsedFields(m);
    var at := FIXED + |m.optional|;
    assert forall j :: FIXED <= j < at ==> f[j] == m.optional[j - FIXED];
    SeparatorComesAt(f, FIXED, at);
    EscapedIsPlain(m.root);
    EscapedIsPlain(m.target);
    ParsePrintedNat(m.id, U64_MAX);
    ParsePrintedNat(m.parent, U64_MAX);
    assert f[0] == PrintNat(m.id) && f[1] == PrintNat(m.parent) && f[3] == Escape(m.root) && f[4] == Escape(m.target);
    assert EntryOf(f) == if m.source == "" then None else Decoded(f[2], f[at + 2], f[4], f[at + 1]);
    hide EntryOf, Separator, ParseNat, Rooted;
    if m.source != "" {
      DecodedPrinted(m);
    }
  }

  lemma {:induction false} DecodedPrinted(m: Mount)
    requires Printable(m)
    ensures Decoded(PrintNat(m.major) + ":" + PrintNat(m.minor), Escape(m.source), Escape(m.target), Escape(m.filesystem)) ==
      if FitsBuffers(m) then Some(Entry(m.major, m.minor, m.source, m.target, m.filesystem)) else None
  {
    DeviceNumberPrinted(m.major, m.minor);
    UnescapeEscaped(m.source);
    UnescapeEscaped(m.target);
    UnescapeEscaped(m.filesystem);
    hide Escape, Unescape, DeviceNumber, PrintNat;
  }
}
