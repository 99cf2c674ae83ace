/** The kernel's own mountinfo lines and this parser (src/mountinfo.c): the kernel escapes blank,
    tab, newline and backslash only, while the parser also takes vertical tab, form feed and
    carriage return for separators. */
module MountInfoKernel {
  import opened Basics
  import opened Decimal
  import opened MountInfo

  predicate KernelEscapes(c: char) {
    c == ' ' || c == '\t' || c == '\n' || c == '\\'
  }

  /** Printed as it is, and a separator for the parser. */
  predicate IsBareSpace(c: char) {
    IsSpace(c) && !KernelEscapes(c)
  }

  predicate Clean(s: string) {
    forall i :: 0 <= i < |s| ==> !IsBareSpace(s[i])
  }

  function KernelEscape(s: string): string
    requires Bytes(s)
  {
    if s == "" then ""
    else (if KernelEscapes(s[0]) then Octal(s[0]) else [s[0]]) + KernelEscape(s[1..])
  }

  function KernelFields(m: Mount): seq<string>
    requires Printable(m)
  {
    [PrintNat(m.id), PrintNat(m.parent), PrintNat(m.major) + ":" + PrintNat(m.minor), KernelEscape(m.root), KernelEscape(m.target), m.options] +
    m.optional + ["-", KernelEscape(m.filesystem), KernelEscape(m.source), m.superOptions]
  }

  function KernelLine(m: Mount): string
    requires Printable(m)
  {
    Joined(KernelFields(m))
  }

  lemma {:induction false} CleanIsEscapedTheSame(s: string)
    requires Bytes(s) && Clean(s)
    ensures KernelEscape(s) == Escape(s)
  {
    if s != "" {
      assert !IsBareSpace(s[0]);
      CleanIsEscapedTheSame(s[1..]);
    }
  }

  /** The kernel's line for a mount whose texts hold none of the three characters is recovered
      exactly when its source is not empty and the texts fit their buffers. */
  lemma {:induction false} KernelLineParses(m: Mount)
    requires Printable(m) && Clean(m.root) && Clean(m.target) && Clean(m.filesystem) && Clean(m.source)
    ensures ParseLine(KernelLine(m)) ==
      if m.source != "" && FitsBuffers(m) then Some(Entry(m.major, m.minor, m.source, m.target, m.filesystem)) else None
  {
    CleanIsEscapedTheSame(m.root);
    CleanIsEscapedTheSame(m.target);
    CleanIsEscapedTheSame(m.filesystem);
    CleanIsEscapedTheSame(m.source);
    assert KernelFields(m) == FieldsOf(m);
    hide Escape, KernelEscape, ParseLine, Joined, FieldsOf, KernelFields;
    PrintedLineParses(m);
  }

  // ----- The fields of a text that was joined from others -----

  lemma NextOfPlain(field: string)
    requires Plain(field)
    ensures NextOf(field) == Some(Cut(field, "")) && NextOf("") == None
  {
    hide Fields;
    assert SpacesBefore(field) == 0;
    assert field[0..] == field;
    assert FieldLength(field) == |field|;
    assert field[..|field|] == field;
  }

  lemma {:induction false} PlainIsOneField(field: string)
    requires Plain(field)
    ensures Fields(field) == [field]
  {
    hide *;
    NextOfPlain(field);
    FieldsUnfold(field);
    FieldsUnfold("");
  }

  lemma {:induction false} FieldThenRest(field: string, c: char, rest: string)
    requires Plain(field) && IsSpace(c)
    ensures Fields(field + [c] + rest) == [field] + Fields(rest)
  {
    hide *;
    FieldComesFirst(field, c, rest);
    FieldsUnfold(field + [c] + rest);
  }

  lemma FieldAtStart(s: string)
    requires s != "" && !IsSpace(s[0])
    ensures var n := FieldLength(s);
      n <= |s| && Plain(s[..n]) && (n < |s| ==> IsSpace(s[n]))
  {
    hide IsSpace;
  }

  lemma NoFields()
    ensures Fields("") == []
  {
    assert NextOf("") == None;
  }

  /** A separator cuts a text in two, wherever it stands. */
  lemma {:induction false} FieldsSplit(before: string, c: char, after: string)
    requires IsSpace(c)
    ensures Fields(before + [c] + after) == Fields(before) + Fields(after)
    decreases |before|
  {
    hide *;
    if before == "" {
      assert before + [c] + after == [c] + after;
      SpaceIsSkipped(c, after);
      NoFields();
      assert [] + Fields(after) == Fields(after);
    } else if IsSpace(before[0]) {
      var rest := before[1..];
      assert before + [c] + after == [before[0]] + (rest + [c] + after);
      assert before == [before[0]] + rest;
      SpaceIsSkipped(before[0], rest + [c] + after);
      SpaceIsSkipped(before[0], rest);
      FieldsSplit(rest, c, after);
    } else {
      FieldAtStart(before);
      var n := FieldLength(before);
      var field := before[..n];
      if n == |before| {
        assert field == before;
        FieldThenRest(field, c, after);
        PlainIsOneField(field);
      } else {
        var rest := before[n + 1..];
        assert before + [c] + after == field + [before[n]] + (rest + [c] + after);
        assert before == field + [before[n]] + rest;
        FieldThenRest(field, before[n], rest + [c] + after);
        FieldThenRest(field, before[n], rest);
        FieldsSplit(rest, c, after);
        assert [field] + (Fields(rest) + Fields(after)) == [field] + Fields(rest) + Fields(after);
      }
    }
  }

  lemma {:induction false} EscapeAround(a: string, c: char, b: string)
    requires Bytes(a + [c] + b) && Bytes(a) && Bytes(b) && !KernelEscapes(c)
    ensures KernelEscape(a + [c] + b) == KernelEscape(a) + [c] + KernelEscape(b)
  {
    if a == "" {
      assert a + [c] + b == [c] + b && ([c] + b)[1..] == b;
    } else {
      assert (a + [c] + b)[1..] == a[1..] + [c] + b && (a + [c] + b)[0] == a[0];
      EscapeAround(a[1..], c, b);
      var head := if KernelEscapes(a[0]) then Octal(a[0]) else [a[0]];
      assert head + (KernelEscape(a[1..]) + [c] + KernelEscape(b)) == (head + KernelEscape(a[1..])) + [c] + KernelEscape(b);
    }
  }
}
