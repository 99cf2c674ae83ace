/** When a mount is recovered from the kernel's own line (src/mountinfo.c), for every mount the
    kernel may list, and what a visitor then sees of a whole namespace. */
module MountInfoRecovery {
  import opened Basics
  import opened Decimal
  import opened MountInfo
  import opened MountInfoKernel
  import opened MountInfoReader

  // ----- The words of a text -----

  function CleanLength(s: string): (n: nat)
    ensures n <= |s| && Clean(s[..n]) && (n < |s| ==> IsBareSpace(s[n]))
  {
    if s == "" || IsBareSpace(s[0]) then 0 else
      var n := 1 + CleanLength(s[1..]);
      assert s[..n] == [s[0]] + s[1..][..n - 1];
      n
  }

  /** The pieces of a text between its bare spaces. */
  function Words(s: string): (r: seq<string>)
    ensures forall i :: 0 <= i < |r| ==> r[i] != "" && Clean(r[i]) && (Bytes(s) ==> Bytes(r[i]))
    decreases |s|
  {
    if s == "" then []
    else if IsBareSpace(s[0]) then Words(s[1..])
    else [s[..CleanLength(s)]] + Words(s[CleanLength(s)..])
  }

  function WordFields(s: string): (r: seq<string>)
    requires Bytes(s)
    ensures |r| == |Words(s)| && forall i :: 0 <= i < |r| ==> r[i] == Escape(Words(s)[i])
  {
    seq(|Words(s)|, i requires 0 <= i < |Words(s)| => Escape(Words(s)[i]))
  }

  lemma {:induction false} CleanIsOneWord(s: string)
    requires Clean(s) && s != ""
    ensures Words(s) == [s]
  {
    assert !IsBareSpace(s[0]);
    var n := CleanLength(s);
    assert n == |s|;
    assert s[..n] == s && s[n..] == "";
  }

  lemma WordFieldsAre(s: string)
    requires Bytes(s)
    ensures |WordFields(s)| == |Words(s)|
    ensures forall i :: 0 <= i < |Words(s)| ==> Bytes(Words(s)[i]) && Clean(Words(s)[i]) && WordFields(s)[i] == Escape(Words(s)[i])
  {
    hide Escape, Bytes, Clean;
  }

  lemma {:induction false} RootedHasWord(s: string)
    requires Rooted(s)
    ensures |Words(s)| >= 1 && Rooted(Words(s)[0])
  {
    assert !IsBareSpace(s[0]);
    assert CleanLength(s) > 0;
  }

  /** The parser's fields of an escaped text are its words. */
  lemma {:induction false} FieldsAreWords(s: string)
    requires Bytes(s)
    ensures Fields(KernelEscape(s)) == WordFields(s)
    decreases |s|
  {
    if s == "" {
      assert NextOf("") == None;
    } else if IsBareSpace(s[0]) {
      BareSpaceFirst(s);
    } else {
      WordFirst(s);
    }
  }

  lemma {:induction false} BareSpaceFirst(s: string)
    requires Bytes(s) && s != "" && IsBareSpace(s[0])
    ensures Fields(KernelEscape(s)) == WordFields(s)
    decreases |s|, 0
  {
    var rest := s[1..];
    assert KernelEscape(s) == [s[0]] + KernelEscape(rest);
    assert Words(s) == Words(rest);
    FieldsAreWords(rest);
    assert WordFields(s) == WordFields(rest);
    hide Fields, KernelEscape, WordFields, Words;
    SpaceIsSkipped(s[0], KernelEscape(rest));
  }

  lemma {:induction false} WordFirst(s: string)
    requires Bytes(s) && s != "" && !IsBareSpace(s[0])
    ensures Fields(KernelEscape(s)) == WordFields(s)
    decreases |s|, 0
  {
    hide *;
    var n := CleanLength(s);
    var a, rest := s[..n], s[n..];
    WordsUnfold(s);
    assert a + rest == s;
    CleanIsEscapedTheSame(a);
    if n == |s| {
      assert a == s;
      PlainIsOneField(Escape(a));
    } else {
      var c, b := s[n], s[n + 1..];
      assert s == a + [c] + b;
      FieldsAreWords(b);
      EscapeAround(a, c, b);
      FieldsSplit(Escape(a), c, KernelEscape(b));
      PlainIsOneField(Escape(a));
    }
  }

  lemma WordComesFirst(s: string)
    requires s != "" && !IsBareSpace(s[0])
    ensures CleanLength(s) > 0 && Words(s) == [s[..CleanLength(s)]] + Words(s[CleanLength(s)..])
  {
  }

  lemma BareSpaceIsSkipped(c: char, rest: string)
    requires IsBareSpace(c)
    ensures Words([c] + rest) == Words(rest) && IsSpace(c) && !KernelEscapes(c)
  {
    assert ([c] + rest)[1..] == rest;
  }

  lemma FirstWord(s: string)
    requires s != "" && !IsBareSpace(s[0])
    ensures var n := CleanLength(s);
      && n > 0
      && (n == |s| ==> Words(s) == [s])
      && (n < |s| ==> IsSpace(s[n]) && !KernelEscapes(s[n]) && Words(s) == [s[..n]] + Words(s[n + 1..]))
  {
    hide *;
    var n := CleanLength(s);
    WordComesFirst(s);
    if n == |s| {
      assert s[..n] == s && s[n..] == "";
      NoWord();
    } else {
      assert s[n..] == [s[n]] + s[n + 1..];
      BareSpaceIsSkipped(s[n], s[n + 1..]);
    }
  }

  lemma NoWord()
    ensures Words("") == []
  {
  }

  lemma FieldsOfWords(s: string, first: string, rest: string)
    requires Bytes(s) && Bytes(first) && Bytes(rest)
    ensures Words(s) == [first] ==> WordFields(s) == [Escape(first)]
    ensures Words(s) == [first] + Words(rest) ==> WordFields(s) == [Escape(first)] + WordFields(rest)
  {
    hide Escape, Words, Bytes;
  }

  lemma WordsUnfold(s: string)
    requires Bytes(s) && s != "" && !IsBareSpace(s[0])
    ensures var n := CleanLength(s);
      && n > 0 && Bytes(s[..n]) && Clean(s[..n]) && Plain(Escape(s[..n]))
      && (n == |s| ==> WordFields(s) == [Escape(s[..n])])
      && (n < |s| ==> Bytes(s[n + 1..]) && IsSpace(s[n]) && !KernelEscapes(s[n]) &&
                      WordFields(s) == [Escape(s[..n])] + WordFields(s[n + 1..]))
  {
    hide *;
    var n := CleanLength(s);
    SlicesAreBytes(s, n);
    FirstWord(s);
    assert n == |s| ==> s[..n] == s;
    EscapedIsPlain(s[..n]);
    IsPlain(Escape(s[..n]));
    if n == |s| {
      FieldsOfWords(s, s[..n], s[n..]);
    } else {
      FieldsOfWords(s, s[..n], s[n + 1..]);
    }
  }

  lemma SlicesAreBytes(s: string, n: nat)
    requires Bytes(s) && n <= |s|
    ensures Bytes(s[..n]) && Bytes(s[n..]) && (n < |s| ==> Bytes(s[n + 1..]))
  {
  }

  lemma IsPlain(s: string)
    requires NoSpaces(s) && s != ""
    ensures Plain(s)
  {
  }

  // ----- The fields of the kernel's line -----

  /** The fields of several texts, one after the other. */
  function Flat(texts: seq<string>): seq<string> {
    if texts == [] then [] else Fields(texts[0]) + Flat(texts[1..])
  }

  lemma {:induction false} JoinedIsFlat(texts: seq<string>)
    ensures Fields(Joined(texts)) == Flat(texts)
  {
    hide Fields;
    if texts == [] {
      assert Fields("") == [] by {
        NoFields();
      }
    } else {
      var space := if |texts| == 1 then '\n' else ' ';
      assert Joined(texts) == texts[0] + [space] + Joined(texts[1..]);
      FieldsSplit(texts[0], space, Joined(texts[1..]));
      JoinedIsFlat(texts[1..]);
    }
  }

  lemma {:induction false} FlatPrefix(texts: seq<string>, rest: seq<string>)
    requires forall i :: 0 <= i < |texts| ==> Plain(texts[i])
    ensures Flat(texts + rest) == texts + Flat(rest)
  {
    hide Fields, Plain;
    if texts == [] {
      assert texts + rest == rest;
    } else {
      assert (texts + rest)[1..] == texts[1..] + rest;
      PlainIsOneField(texts[0]);
      FlatPrefix(texts[1..], rest);
    }
  }

  lemma {:induction false} FlatTwo(first: string, second: string, rest: seq<string>)
    ensures Flat([first, second] + rest) == Fields(first) + (Fields(second) + Flat(rest))
  {
    hide Fields;
    var texts := [first, second] + rest;
    assert texts[1..] == [second] + rest && texts[1..][1..] == rest;
  }

  function Numbers(m: Mount): (r: seq<string>)
    ensures |r| == 3
  {
    [PrintNat(m.id), PrintNat(m.parent), PrintNat(m.major) + ":" + PrintNat(m.minor)]
  }

  /** Options and optional fields up to the separator. */
  function Middle(m: Mount): (r: seq<string>)
    ensures |r| == |m.optional| + 2 && r[0] == m.options && r[|m.optional| + 1] == "-"
    ensures forall i :: 0 <= i < |m.optional| ==> r[1 + i] == m.optional[i]
  {
    [m.options] + m.optional + ["-"]
  }

  function Tail(m: Mount): seq<string>
    requires Printable(m)
  {
    WordFields(m.filesystem) + (WordFields(m.source) + [m.superOptions])
  }

  /** The words of root and mount point. */
  function PathWords(m: Mount): seq<string> {
    Words(m.root) + Words(m.target)
  }

  function PathFields(m: Mount): seq<string>
    requires Printable(m)
  {
    WordFields(m.root) + WordFields(m.target)
  }

  function LineFields(m: Mount): seq<string>
    requires Printable(m)
  {
    Numbers(m) + (PathFields(m) + (Middle(m) + Tail(m)))
  }

  lemma UnescapedColumnsArePlain(m: Mount)
    requires Printable(m)
    ensures forall i :: 0 <= i < 3 ==> Plain(Numbers(m)[i])
    ensures forall i :: 0 <= i < |Middle(m)| ==> Plain(Middle(m)[i])
  {
    DigitsArePlain(m.id);
    DigitsArePlain(m.parent);
    DeviceNumberPrinted(m.major, m.minor);
    assert Plain("-") && Plain(m.options);
    hide PrintNat, NoSpaces, Plain;
    var f := Middle(m);
    forall i | 0 <= i < |f| ensures Plain(f[i]) {
      if 1 <= i < |m.optional| + 1 {
        assert f[i] == m.optional[i - 1];
      }
    }
  }

  lemma KernelFieldsRegrouped(m: Mount)
    requires Printable(m)
    ensures KernelFields(m) ==
      Numbers(m) + ([KernelEscape(m.root), KernelEscape(m.target)] +
                    (Middle(m) + ([KernelEscape(m.filesystem), KernelEscape(m.source)] + [m.superOptions])))
    ensures Plain(m.superOptions)
  {
    hide KernelEscape, PrintNat, Plain, Bytes;
  }

  /** What the parser sees of the kernel's line for any mount: its columns, with the escaped ones
      cut into words. */
  lemma {:induction false} KernelLineFields(m: Mount)
    requires Printable(m)
    ensures Fields(KernelLine(m)) == LineFields(m)
  {
    hide *;
    TextsAreBytes(m);
    var last := [m.superOptions];
    var root, target, filesystem, source := KernelEscape(m.root), KernelEscape(m.target),
        KernelEscape(m.filesystem), KernelEscape(m.source);
    KernelFieldsRegrouped(m);
    UnescapedColumnsArePlain(m);
    FieldsAreWords(m.root);
    FieldsAreWords(m.target);
    FieldsAreWords(m.filesystem);
    FieldsAreWords(m.source);
    JoinedIsFlat(KernelFields(m));
    FlatPrefix(Numbers(m), [root, target] + (Middle(m) + ([filesystem, source] + last)));
    FlatTwo(root, target, Middle(m) + ([filesystem, source] + last));
    FlatPrefix(Middle(m), [filesystem, source] + last);
    FlatTwo(filesystem, source, last);
    FlatOne(m.superOptions);
    LineFieldsAre(m);
  }

  lemma TextsAreBytes(m: Mount)
    requires Printable(m)
    ensures Bytes(m.root) && Bytes(m.target) && Bytes(m.filesystem) && Bytes(m.source)
    ensures m.target != "" && m.filesystem != ""
  {
    hide Bytes, Plain;
  }

  lemma FlatOne(text: string)
    requires Plain(text)
    ensures Flat([text]) == [text]
  {
    FlatPrefix([text], []);
    assert [text] + [] == [text] && [text] + Flat([]) == [text];
  }

  lemma LineFieldsAre(m: Mount)
    requires Printable(m)
    ensures KernelLine(m) == Joined(KernelFields(m))
    ensures LineFields(m) ==
      Numbers(m) + (WordFields(m.root) + (WordFields(m.target) +
                   (Middle(m) + (WordFields(m.filesystem) + (WordFields(m.source) + [m.superOptions])))))
  {
    hide WordFields, Joined, KernelFields, Numbers, Middle, Bytes, Plain;
    var rest := Middle(m) + (WordFields(m.filesystem) + (WordFields(m.source) + [m.superOptions]));
    assert WordFields(m.root) + (WordFields(m.target) + rest) == (WordFields(m.root) + WordFields(m.target)) + rest;
  }

  lemma Positions(n: seq<string>, p: seq<string>, middle: seq<string>, tail: seq<string>)
    ensures var f := n + (p + (middle + tail));
      && |f| == |n| + |p| + |middle| + |tail|
      && (forall i :: 0 <= i < |n| ==> f[i] == n[i])
      && (forall i :: |n| <= i < |n| + |p| ==> f[i] == p[i - |n|])
      && (forall i :: |n| + |p| <= i < |f| - |tail| ==> f[i] == middle[i - |n| - |p|])
      && (forall i :: |f| - |tail| <= i < |f| ==> f[i] == tail[i - (|f| - |tail|)])
  {
  }

  function EntryFor(m: Mount): Entry {
    Entry(m.major, m.minor, m.source, m.target, m.filesystem)
  }

  /** Where the separator of the kernel's line is. */
  function SeparatorIndex(m: Mount): nat {
    3 + |PathWords(m)| + |m.optional| + 1
  }

  lemma LineParts(m: Mount)
    requires Printable(m)
    ensures LineFields(m) == Numbers(m) + (PathFields(m) + (Middle(m) + Tail(m)))
    ensures |Numbers(m)| == 3 && SeparatorIndex(m) == 3 + |PathWords(m)| + |m.optional| + 1
    ensures FIXED == 6 && |Middle(m)| == |m.optional| + 2 && Middle(m)[0] == m.options && Middle(m)[|m.optional| + 1] == "-"
    ensures forall i :: 0 <= i < |m.optional| ==> Middle(m)[1 + i] == m.optional[i]
  {
    hide PathFields, PathWords, Tail, Bytes, Plain;
  }

  lemma {:induction false} PathFieldsAre(m: Mount)
    requires Printable(m)
    ensures var words, fields := PathWords(m), PathFields(m);
      && |fields| == |words| >= 2 && Rooted(words[0])
      && (forall i :: 0 <= i < |words| ==> Bytes(words[i]) && Clean(words[i]) && words[i] != "" && fields[i] == Escape(words[i]))
  {
    RootedHasWord(m.root);
    RootedHasWord(m.target);
    WordFieldsAre(m.root);
    WordFieldsAre(m.target);
    hide Words, WordFields, Escape, Bytes, Clean, Plain;
  }

  lemma {:induction false} LineLayout(m: Mount)
    requires Printable(m)
    ensures var f, fields, d := LineFields(m), PathFields(m), SeparatorIndex(m);
      && |fields| == |PathWords(m)| >= 2 && d >= FIXED == 6 && |f| == d + 1 + |Tail(m)| && f[d] == "-"
      && (forall i :: 0 <= i < 3 ==> f[i] == Numbers(m)[i])
      && (forall i :: 0 <= i < |fields| ==> f[3 + i] == fields[i])
      && f[3 + |fields|] == m.options
      && (forall i :: 0 <= i < |m.optional| ==> f[3 + |fields| + 1 + i] == m.optional[i])
      && (forall i :: 0 <= i < |Tail(m)| ==> f[d + 1 + i] == Tail(m)[i])
  {
    hide *;
    PathFieldsAre(m);
    LineParts(m);
    Positions(Numbers(m), PathFields(m), Middle(m), Tail(m));
    var f, at := LineFields(m), 3 + |PathFields(m)|;
    assert f[at] == Middle(m)[0] && f[SeparatorIndex(m)] == Middle(m)[|m.optional| + 1];
    forall i | 0 <= i < |m.optional| ensures f[at + 1 + i] == m.optional[i] {
      assert f[at + 1 + i] == Middle(m)[1 + i];
    }
  }

  lemma {:induction false} TailParts(m: Mount)
    requires Printable(m)
    ensures var a, b := WordFields(m.filesystem), WordFields(m.source);
      && |Tail(m)| == |a| + |b| + 1
      && (forall i :: 0 <= i < |a| ==> Tail(m)[i] == a[i])
      && (forall i :: 0 <= i < |b| ==> Tail(m)[|a| + i] == b[i])
  {
    hide WordFields, Printable;
  }

  /** What a successful reading found where. */
  lemma EntryParts(f: seq<string>)
    requires EntryOf(f).Some?
    ensures |f| >= FIXED && Separator(f, FIXED).Some?
    ensures var e, s := EntryOf(f).value, Separator(f, FIXED).value;
      && |f| == s + 4
      && Unescape(f[s + 1]) == Some(e.filesystem) && Unescape(f[4]) == Some(e.target) && Unescape(f[s + 2]) == Some(e.source)
      && |e.source| < PATH_SIZE && |e.target| < PATH_SIZE && |e.filesystem| < TYPE_SIZE
  {
    hide Unescape, Separator, ParseNat, Rooted, DeviceNumber;
  }

  lemma SeparatorIs(f: seq<string>)
    requires |f| >= FIXED
    ensures var s := Separator(f, FIXED);
      && (s.Some? ==> FIXED <= s.value < |f| && f[s.value] == "-")
      && forall j :: FIXED <= j < (if s.Some? then s.value else |f|) ==> f[j] != "-"
  {
  }

  lemma WordDecodes(s: string, i: nat)
    requires Bytes(s) && i < |Words(s)|
    ensures Unescape(WordFields(s)[i]) == Some(Words(s)[i])
  {
    hide Unescape, Escape, Words;
    UnescapeEscaped(Words(s)[i]);
  }

  lemma HyphenIsItself()
    ensures Bytes("-") && Clean("-") && Escape("-") == "-" && Unescape("-") == Some("-")
  {
    UnescapeEscaped("-");
    assert Escape("-") == "-" + Escape("");
  }

  /** A text that was read from a word holds no bare space and is its only word. */
  lemma ReadFromWord(s: string, from: string, i: nat)
    requires Bytes(s) && Bytes(from) && i < |Words(from)| && s != ""
    requires Unescape(WordFields(from)[i]) == Some(s)
    ensures Words(from)[i] == s && Clean(s) && Words(s) == [s] && |WordFields(s)| == 1
  {
    hide Unescape, WordFields, Words, Clean, Bytes;
    WordDecodes(from, i);
    CleanIsOneWord(s);
  }

  lemma EntryForHas(m: Mount)
    ensures var e := EntryFor(m);
      && e.target == m.target && e.source == m.source && e.filesystem == m.filesystem && e.major == m.major &&
          e.minor == m.minor
  {
  }

  /** The separator found is the kernel's own: an earlier one would make source or type of it. */
  lemma {:induction false} SeparatorIsReal(m: Mount)
    requires Printable(m) && EntryOf(LineFields(m)) == Some(EntryFor(m))
    ensures Separator(LineFields(m), FIXED) == Some(SeparatorIndex(m))
    ensures |WordFields(m.filesystem)| + |WordFields(m.source)| == 2
  {
    hide *;
    var f, d := LineFields(m), SeparatorIndex(m);
    LineLayout(m);
    EntryParts(f);
    TailParts(m);
    EntryForHas(m);
    HyphenIsItself();
    SeparatorIs(f);
    var s := Separator(f, FIXED).value;
    assert f[d] == "-";
    if s == d - 1 {
      assert f[s + 1] == "-" && m.filesystem == "-";
      assert f[d + 1 + 0] == Tail(m)[0];
      HyphenField(m.filesystem);
      assert false;
    } else if s + 2 == d {
      assert f[s + 2] == "-" && m.source == "-";
      HyphenField(m.source);
    }
  }

  lemma HyphenField(s: string)
    requires s == "-"
    ensures Bytes(s) && WordFields(s) == ["-"]
  {
    HyphenIsItself();
    CleanIsOneWord(s);
    hide Escape, Words, Bytes;
    assert Words(s) == [s];
  }

  lemma {:induction false} TypeAndSourceAreClean(m: Mount)
    requires Printable(m) && EntryOf(LineFields(m)) == Some(EntryFor(m))
    ensures Clean(m.filesystem) && Clean(m.source) && m.source != ""
  {
    hide *;
    TextsAreBytes(m);
    var f, d := LineFields(m), SeparatorIndex(m);
    SeparatorIsReal(m);
    LineLayout(m);
    TailParts(m);
    EntryParts(f);
    EntryForHas(m);
    assert f[d + 1 + 0] == Tail(m)[0] && f[d + 1 + 1] == Tail(m)[1];
    if |WordFields(m.filesystem)| > 0 {
      ReadFromWord(m.filesystem, m.filesystem, 0);
      assert Tail(m)[1 + 0] == WordFields(m.source)[0];
      SourceFromWord(m.source, m.source, 0);
    } else {
      ReadFromWord(m.filesystem, m.source, 0);
      CleanHasWord(m.filesystem);
    }
  }

  lemma SourceFromWord(s: string, from: string, i: nat)
    requires Bytes(s) && Bytes(from) && i < |Words(from)|
    requires Unescape(WordFields(from)[i]) == Some(s)
    ensures Words(from)[i] == s && Clean(s) && s != ""
  {
    hide Unescape, WordFields, Clean, Bytes;
    WordDecodes(from, i);
  }

  lemma CleanHasWord(s: string)
    requires Clean(s) && s != "" && Bytes(s)
    ensures |WordFields(s)| == 1
  {
    CleanIsOneWord(s);
    hide Words;
  }

  // ----- Reading the kernel's line -----

  /** No word from the fourth on is a hyphen, nor the options when there are three words or more:
      all those come where the separator is looked for. */
  predicate NoHyphen(m: Mount) {
    var words := PathWords(m);
    |words| > 2 ==> m.options != "-" && forall i :: 3 <= i < |words| ==> words[i] != "-"
  }

  lemma NoHyphenMeans(m: Mount)
    ensures var words := PathWords(m);
      NoHyphen(m) <==> (|words| > 2 ==> m.options != "-" && forall i :: 3 <= i < |words| ==> words[i] != "-")
  {
    hide PathWords;
  }

  lemma {:induction false} EscapedHyphen(s: string)
    requires Bytes(s)
    ensures Escape(s) == "-" <==> s == "-"
  {
    HyphenIsItself();
    UnescapeEscaped(s);
    hide Escape, Unescape, Bytes;
  }

  /** No field before the kernel's own separator is taken for one exactly when no word is. */
  lemma {:induction false} NoEarlierSeparator(m: Mount)
    requires Printable(m) && |LineFields(m)| >= SeparatorIndex(m)
    ensures NoHyphen(m) <==> forall j :: FIXED <= j < SeparatorIndex(m) ==> LineFields(m)[j] != "-"
  {
    hide *;
    var f, words, d := LineFields(m), PathWords(m), SeparatorIndex(m);
    LineLayout(m);
    LineParts(m);
    PathFieldsAre(m);
    NoHyphenMeans(m);
    if NoHyphen(m) {
      forall j | FIXED <= j < d ensures f[j] != "-" {
        if j < 3 + |words| {
          assert f[3 + (j - 3)] == PathFields(m)[j - 3];
          EscapedHyphen(words[j - 3]);
        } else if j > 3 + |words| {
          var i := j - (3 + |words| + 1);
          assert f[3 + |words| + 1 + i] == m.optional[i];
          OptionalIsNoHyphen(m, i);
        }
      }
    } else if m.options == "-" {
      assert f[3 + |words|] == "-";
    } else {
      var i :| 3 <= i < |words| && words[i] == "-";
      EscapedHyphen(words[i]);
      assert f[3 + i] == PathFields(m)[i] == "-";
    }
  }

  lemma OptionalIsNoHyphen(m: Mount, i: nat)
    requires Printable(m) && i < |m.optional|
    ensures m.optional[i] != "-"
  {
    hide Bytes, Plain;
  }

  lemma {:induction false} SeparatorIsFound(m: Mount)
    requires Printable(m)
    ensures |LineFields(m)| >= FIXED
    ensures var s := Separator(LineFields(m), FIXED);
      s.Some? && s.value <= SeparatorIndex(m) && (s.value == SeparatorIndex(m) <==> NoHyphen(m))
  {
    hide *;
    var f, d := LineFields(m), SeparatorIndex(m);
    LineLayout(m);
    SeparatorIs(f);
    NoEarlierSeparator(m);
    if NoHyphen(m) {
      SeparatorComesAt(f, FIXED, d);
    }
  }

  lemma CleanField(s: string)
    requires Bytes(s) && Clean(s) && s != ""
    ensures WordFields(s) == [Escape(s)]
  {
    CleanIsOneWord(s);
    hide Words, Escape, Bytes;
  }

  lemma {:induction false} RootedEscaped(s: string)
    requires Bytes(s)
    ensures Rooted(Escape(s)) <==> Rooted(s)
  {
    if s != "" {
      assert Escape(s)[0] == (if IsSpace(s[0]) || s[0] == '\\' then '\\' else s[0]);
    }
  }

  /** The line of a mount whose type and source are without bare spaces: the reading succeeds when the
      second word of root and mount point is a path, no word is taken for the separator and the
      texts fit, and then that word is reported as the mount point. */
  lemma {:induction false} KernelLineReads(m: Mount)
    requires Printable(m) && Clean(m.filesystem) && Clean(m.source) && m.source != ""
    ensures |PathWords(m)| >= 2
    ensures ParseLine(KernelLine(m)) ==
      var target := PathWords(m)[1];
      if Rooted(target) && NoHyphen(m) && FitsBuffers(m.(target := target))
      then Some(Entry(m.major, m.minor, m.source, target, m.filesystem)) else None
  {
    hide *;
    PathFieldsAre(m);
    var f, d, target := LineFields(m), SeparatorIndex(m), PathWords(m)[1];
    KernelLineFields(m);
    ParsedFrom(KernelLine(m));
    LineLayout(m);
    LineParts(m);
    PathFieldsAre(m);
    SeparatorIsFound(m);
    TextsAreBytes(m);
    NumbersParse(m);
    CleanField(m.filesystem);
    CleanField(m.source);
    TailParts(m);
    assert f[0] == Numbers(m)[0] && f[1] == Numbers(m)[1] && f[2] == Numbers(m)[2];
    assert f[3 + 0] == PathFields(m)[0] && f[3 + 1] == PathFields(m)[1];
    assert Tail(m)[0] == WordFields(m.filesystem)[0] && Tail(m)[1] == WordFields(m.source)[0];
    assert f[d + 1 + 0] == Tail(m)[0] && f[d + 1 + 1] == Tail(m)[1];
    RootedEscaped(PathWords(m)[0]);
    RootedEscaped(target);
    EntryOfFields(f);
    DecodedTexts(m, target);
  }

  lemma NumbersParse(m: Mount)
    requires Printable(m)
    ensures ParseNat(Numbers(m)[0], U64_MAX).Some? && ParseNat(Numbers(m)[1], U64_MAX).Some?
    ensures Numbers(m)[2] == PrintNat(m.major) + ":" + PrintNat(m.minor)
  {
    ParsePrintedNat(m.id, U64_MAX);
    ParsePrintedNat(m.parent, U64_MAX);
    hide ParseNat, PrintNat;
  }

  lemma EntryOfFields(f: seq<string>)
    requires |f| >= FIXED && ParseNat(f[0], U64_MAX).Some? && ParseNat(f[1], U64_MAX).Some? && Rooted(f[3])
    requires Separator(f, FIXED).Some?
    ensures var s := Separator(f, FIXED).value;
      && (Rooted(f[4]) && |f| == s + 4 ==> EntryOf(f) == Decoded(f[2], f[s + 2], f[4], f[s + 1]))
      && (!Rooted(f[4]) || |f| != s + 4 ==> EntryOf(f) == None)
  {
    hide Separator, ParseNat, Rooted, Decoded;
  }

  lemma {:induction false} DecodedTexts(m: Mount, target: string)
    requires Printable(m) && Bytes(target)
    ensures Decoded(PrintNat(m.major) + ":" + PrintNat(m.minor), Escape(m.source), Escape(target), Escape(m.filesystem)) ==
      if FitsBuffers(m.(target := target)) then Some(Entry(m.major, m.minor, m.source, target, m.filesystem)) else None
  {
    DeviceNumberPrinted(m.major, m.minor);
    UnescapeEscaped(m.source);
    UnescapeEscaped(target);
    UnescapeEscaped(m.filesystem);
    hide Escape, Unescape, DeviceNumber, PrintNat, Bytes, Plain;
  }

  lemma ParsedFrom(line: string)
    ensures ParseLine(line) == EntryOf(Fields(line))
  {
    hide EntryOf, Fields;
  }

  /** A mount point that holds bare spaces is cut: with a clean root its first word is reported. */
  lemma {:induction false} BareSpaceIsMisread(m: Mount)
    requires Printable(m) && Clean(m.root) && Clean(m.filesystem) && Clean(m.source) && m.source != ""
    ensures |Words(m.target)| >= 1
    ensures ParseLine(KernelLine(m)) ==
      var first := Words(m.target)[0];
      if NoHyphen(m) && FitsBuffers(m.(target := first)) then Some(Entry(m.major, m.minor, m.source, first, m.filesystem)) else None
    ensures Words(m.target)[0] == m.target <==> Clean(m.target)
  {
    hide *;
    CleanRoot(m);
    KernelLineReads(m);
  }

  lemma {:induction false} CleanRoot(m: Mount)
    requires Printable(m) && Clean(m.root)
    ensures |Words(m.target)| >= 1 && PathWords(m) == [m.root] + Words(m.target)
    ensures Rooted(Words(m.target)[0]) && (Words(m.target)[0] == m.target <==> Clean(m.target))
    ensures Clean(m.target) ==> |PathWords(m)| == 2
  {
    RootedHasWord(m.target);
    CleanIsOneWord(m.root);
    if Clean(m.target) {
      CleanIsOneWord(m.target);
    }
    hide Words, Bytes, Plain;
  }

  // ----- Recovery -----

  predicate Recoverable(m: Mount) {
    && Clean(m.filesystem) && Clean(m.source) && m.source != "" && FitsBuffers(m)
    && |PathWords(m)| >= 2 && PathWords(m)[1] == m.target && NoHyphen(m)
  }

  lemma RecoverableMeans(m: Mount)
    ensures Recoverable(m) <==>
      && Clean(m.filesystem) && Clean(m.source) && m.source != "" && FitsBuffers(m)
      && |PathWords(m)| >= 2 && PathWords(m)[1] == m.target && NoHyphen(m)
  {
    hide Clean, FitsBuffers, PathWords, NoHyphen;
  }

  /** The kernel's line of a mount gives back device number, source, target and type if and only if
      type and source hold no bare space, the source is not empty, the texts fit their buffers, and
      the second word of root and mount point is the whole mount point, with nothing taken for the
      separator. */
  lemma {:induction false} KernelLineIsRecovered(m: Mount)
    requires Printable(m)
    ensures ParseLine(KernelLine(m)) == Some(EntryFor(m)) <==> Recoverable(m)
  {
    hide *;
    RecoverableMeans(m);
    EntryForIs(m);
    KernelLineFields(m);
    ParsedFrom(KernelLine(m));
    RootedTarget(m);
    if ParseLine(KernelLine(m)) == Some(EntryFor(m)) {
      TypeAndSourceAreClean(m);
    }
    if Clean(m.filesystem) && Clean(m.source) && m.source != "" {
      KernelLineReads(m);
      assert PathWords(m)[1] == m.target ==> m.(target := PathWords(m)[1]) == m;
      FitsMeans(m);
    }
  }

  lemma RootedTarget(m: Mount)
    requires Printable(m)
    ensures Rooted(m.target)
  {
    hide Bytes, Plain;
  }

  lemma FitsMeans(m: Mount)
    ensures FitsBuffers(m) <==> |m.source| < PATH_SIZE && |m.target| < PATH_SIZE && |m.filesystem| < TYPE_SIZE
  {
  }

  lemma EntryForIs(m: Mount)
    ensures EntryFor(m) == Entry(m.major, m.minor, m.source, m.target, m.filesystem)
  {
  }

  /** With a root without bare spaces: if and only if target, type and source hold none either, the
      source is not empty and the texts fit. */
  lemma {:induction false} CleanRootIsRecovered(m: Mount)
    requires Printable(m) && Clean(m.root)
    ensures ParseLine(KernelLine(m)) == Some(EntryFor(m)) <==>
      Clean(m.target) && Clean(m.filesystem) && Clean(m.source) && m.source != "" && FitsBuffers(m)
  {
    hide *;
    KernelLineIsRecovered(m);
    RecoverableMeans(m);
    CleanRoot(m);
    NoHyphenMeans(m);
  }

  // ----- Witnesses -----

  lemma {:induction false} TwoWords(a: string, c: char, b: string)
    requires Clean(a) && a != "" && IsBareSpace(c) && Clean(b) && b != ""
    ensures Words(a + [c] + b) == [a, b]
  {
    hide *;
    var s := a + [c] + b;
    CleanLengthIs(a, c, b);
    FirstWord(s);
    assert s[..|a|] == a && s[|a| + 1..] == b;
    CleanIsOneWord(b);
  }

  lemma {:induction false} CleanLengthIs(a: string, c: char, b: string)
    requires Clean(a) && a != "" && IsBareSpace(c)
    ensures var s := a + [c] + b;
      CleanLength(s) == |a| && !IsBareSpace(s[0])
  {
    var s := a + [c] + b;
    assert forall i :: 0 <= i < |a| ==> s[i] == a[i] && !IsBareSpace(s[i]);
    assert s[|a|] == c;
    var n := CleanLength(s);
    assert forall i :: 0 <= i < n ==> s[..n][i] == s[i];
    hide IsBareSpace;
  }

  /** The mount of the witnesses. */
  function MountOf(root: string, target: string): Mount {
    Mount(2, 1, 8, 1, root, target, "rw", [], "ext4", "/dev/sda1", "rw")
  }

  lemma MountOfIsPrintable(root: string, target: string)
    requires Bytes(root) && Rooted(root) && Bytes(target) && Rooted(target) && |target| < PATH_SIZE
    ensures var m := MountOf(root, target);
      && Printable(m) && Clean(m.filesystem) && Clean(m.source) && m.source != "" && m.options == "rw" && FitsBuffers(m)
      && m.root == root && m.target == target && m.(target := target) == m
    ensures forall shorter :: MountOf(root, target).(target := shorter) == MountOf(root, shorter)
  {
    var m := MountOf(root, target);
    assert NoSpaces(m.options);
    assert Bytes(m.options) && Bytes(m.filesystem) && Bytes(m.source);
    assert Clean(m.filesystem) && Clean(m.source);
    hide Bytes, NoSpaces, IsSpace;
  }

  lemma ShortTexts()
    ensures Clean("/") && Clean("/a") && Clean("/t") && Clean("b") && IsBareSpace('\r')
    ensures Bytes("/") && Bytes("/a") && Bytes("/t") && Bytes("/a\rb") && Bytes("/a\r/t")
    ensures Rooted("/") && Rooted("/a") && Rooted("/t") && Rooted("/a\rb") && Rooted("/a\r/t")
    ensures "/a\rb" == "/a" + ['\r'] + "b" && "/a\r/t" == "/a" + ['\r'] + "/t"
    ensures PATH_SIZE > 5
  {
  }

  lemma PathWordsAre(m: Mount)
    ensures PathWords(m) == Words(m.root) + Words(m.target)
  {
    hide Words;
  }

  /** A file system mounted on "/a\rb" is taken for one mounted on "/a". */
  lemma {:induction false} MountPointWithReturn()
    ensures var m := MountOf("/", "/a\rb");
      Printable(m) && ParseLine(KernelLine(m)) == Some(EntryFor(MountOf("/", "/a")))
  {
    hide *;
    var m := MountOf("/", "/a\rb");
    ShortTexts();
    MountOfIsPrintable("/", "/a\rb");
    MountOfIsPrintable("/", "/a");
    TwoWords("/a", '\r', "b");
    CleanIsOneWord("/");
    PathWordsAre(m);
    NoHyphenMeans(m);
    BareSpaceIsMisread(m);
    SameButTarget(m, "/a");
  }

  lemma SameButTarget(m: Mount, target: string)
    ensures EntryFor(m.(target := target)) == Entry(m.major, m.minor, m.source, target, m.filesystem)
  {
  }

  /** One mounted on "/t" from the root "/a\r/t" is recovered all the same. */
  lemma {:induction false} RootWithReturn()
    ensures var m := MountOf("/a\r/t", "/t");
      Printable(m) && ParseLine(KernelLine(m)) == Some(EntryFor(m))
  {
    hide *;
    var m := MountOf("/a\r/t", "/t");
    ShortTexts();
    MountOfIsPrintable("/a\r/t", "/t");
    TwoWords("/a", '\r', "/t");
    CleanIsOneWord("/t");
    PathWordsAre(m);
    NoHyphenMeans(m);
    RecoverableMeans(m);
    KernelLineIsRecovered(m);
  }

  // ----- Lines that are refused -----

  /** An empty source leaves too few fields, one with a bare space between other characters too many. */
  lemma {:induction false} SourceMustBeOneWord(m: Mount)
    requires Printable(m) && Clean(m.filesystem) && NoHyphen(m) && |Words(m.source)| != 1
    ensures ParseLine(KernelLine(m)).None?
  {
    hide *;
    KernelLineFields(m);
    ParsedFrom(KernelLine(m));
    TextsAreBytes(m);
    SeparatorIsFound(m);
    LineLayout(m);
    TailParts(m);
    CleanField(m.filesystem);
    WordFieldsAre(m.source);
    NeedsThreeFields(LineFields(m));
  }

  lemma NeedsThreeFields(f: seq<string>)
    requires |f| >= FIXED && Separator(f, FIXED).Some? && |f| != Separator(f, FIXED).value + 4
    ensures EntryOf(f).None?
  {
    hide Separator, ParseNat, Rooted, Decoded;
  }

  // ----- A whole namespace -----

  lemma {:induction false} JoinedIsLine(fields: seq<string>)
    requires fields != [] && forall i :: 0 <= i < |fields| ==> Bytes(fields[i])
    ensures var line := Joined(fields);
      line != "" && line[|line| - 1] == '\n' && Bytes(line)
  {
    if |fields| > 1 {
      JoinedIsLine(fields[1..]);
    }
  }

  lemma {:induction false} EscapedByKernelIsBytes(s: string)
    requires Bytes(s)
    ensures Bytes(KernelEscape(s))
  {
    if s != "" {
      EscapedByKernelIsBytes(s[1..]);
    }
  }

  lemma KernelFieldsAreBytes(m: Mount)
    requires Printable(m)
    ensures forall i :: 0 <= i < |KernelFields(m)| ==> Bytes(KernelFields(m)[i])
  {
    EscapedByKernelIsBytes(m.root);
    EscapedByKernelIsBytes(m.target);
    EscapedByKernelIsBytes(m.filesystem);
    EscapedByKernelIsBytes(m.source);
    var f := KernelFields(m);
    assert Bytes(PrintNat(m.id)) && Bytes(PrintNat(m.parent)) && Bytes(PrintNat(m.major) + ":" + PrintNat(m.minor));
    assert Bytes("-");
    hide KernelEscape, PrintNat, NoSpaces, Bytes, Plain, Rooted;
    forall i | 0 <= i < |f| ensures Bytes(f[i]) {
      if FIXED <= i < FIXED + |m.optional| {
        assert f[i] == m.optional[i - FIXED];
      }
    }
  }

  /** The kernel's line is complete, so that its record is what the parser makes of it. */
  lemma {:induction false} KernelLineIsRead(m: Mount)
    requires Printable(m)
    ensures RecordOf(KernelLine(m)) == ParseLine(KernelLine(m)) && '\0' !in KernelLine(m)
  {
    KernelFieldsAreBytes(m);
    JoinedIsLine(KernelFields(m));
    assert Bytes(KernelLine(m)) ==> '\0' !in KernelLine(m);
    hide ParseLine, KernelFields, Joined;
  }

  function KernelLines(mounts: seq<Mount>): (r: seq<string>)
    requires forall i :: 0 <= i < |mounts| ==> Printable(mounts[i])
    ensures |r| == |mounts| && forall i :: 0 <= i < |r| ==> r[i] == KernelLine(mounts[i])
  {
    seq(|mounts|, i requires 0 <= i < |mounts| => KernelLine(mounts[i]))
  }

  /** The mount is recovered from its line, and the visitor accepts it. */
  predicate IsVisited(m: Mount, accepts: Entry -> bool) {
    Recoverable(m) && accepts(EntryFor(m))
  }

  /** The line gives no entry at all. */
  predicate Refused(m: Mount)
    requires Printable(m)
  {
    ParseLine(KernelLine(m)).None?
  }

  lemma {:induction false} KernelLineIsTaken(m: Mount, accepts: Entry -> bool)
    requires Printable(m)
    ensures IsVisited(m, accepts) <==> Taken(RecordOf(KernelLine(m)), accepts) && RecordOf(KernelLine(m)) == Some(EntryFor(m))
    ensures Refused(m) ==> !Taken(RecordOf(KernelLine(m)), accepts)
    ensures '\0' !in KernelLine(m)
  {
    hide RecordOf, KernelLine, Recoverable, ParseLine, Printable;
    KernelLineIsRead(m);
    KernelLineIsRecovered(m);
  }

  /** Reading the kernel's lines of a whole namespace succeeds with the mounts as they are, in
      order, if and only if every mount is recoverable and accepted; one mount whose line is
      refused makes the whole visit fail. */
  method VisitMounts(mounts: seq<Mount>, accepts: Entry -> bool) returns (visited: seq<Entry>, ok: bool)
    requires forall i :: 0 <= i < |mounts| ==> Printable(mounts[i])
    ensures (ok && |visited| == |mounts| && forall i :: 0 <= i < |mounts| ==> visited[i] == EntryFor(mounts[i]))
      <==> forall i :: 0 <= i < |mounts| ==> IsVisited(mounts[i], accepts)
    ensures (exists i :: 0 <= i < |mounts| && Refused(mounts[i])) ==> !ok
  {
    hide RecordOf, KernelLine, Printable, Taken, IsVisited, Refused, EntryFor;
    var lines := KernelLines(mounts);
    forall i | 0 <= i < |mounts|
      ensures IsVisited(mounts[i], accepts) <==> Taken(RecordOf(lines[i]), accepts) && RecordOf(lines[i]) == Some(EntryFor(mounts[i]))
      ensures Refused(mounts[i]) ==> !Taken(RecordOf(lines[i]), accepts)
      ensures '\0' !in lines[i]
    {
      KernelLineIsTaken(mounts[i], accepts);
    }
    visited, ok := VisitLines(lines, accepts);
    if forall i :: 0 <= i < |mounts| ==> IsVisited(mounts[i], accepts) {
      forall i | 0 <= i < |mounts|
        ensures Taken(RecordOf(lines[i]), accepts) && RecordOf(lines[i]) == Some(EntryFor(mounts[i]))
      {
        assert IsVisited(mounts[i], accepts);
      }
      assert ok;
    }
    if ok && |visited| == |mounts| && forall i :: 0 <= i < |mounts| ==> visited[i] == EntryFor(mounts[i]) {
      forall i | 0 <= i < |mounts| ensures IsVisited(mounts[i], accepts) {
        assert visited[i] == EntryFor(mounts[i]) && RecordOf(lines[i]) == Some(visited[i]);
      }
    }
  }
}
