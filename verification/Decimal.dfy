/** Decimal text of the numbers in the history file and in mountinfo, and its parsers. */
module Decimal {
  import opened Basics

  predicate IsDigit(c: char) {
    '0' <= c <= '9'
  }

  predicate AllDigits(s: string) {
    forall i :: 0 <= i < |s| ==> IsDigit(s[i])
  }

  function DigitChar(d: nat): (c: char)
    requires d < 10
    ensures IsDigit(c)
  {
    ('0' as int + d) as char
  }

  function DigitValue(c: char): nat
    requires IsDigit(c)
  {
    c as int - '0' as int
  }

  function Value(s: string): nat
    requires AllDigits(s)
  {
    if s == "" then 0 else Value(s[..|s| - 1]) * 10 + DigitValue(s[|s| - 1])
  }

  function PrintNat(n: nat): (s: string)
    ensures AllDigits(s) && s != "" && Value(s) == n
  {
    if n < 10 then [DigitChar(n)]
    else
      var s := PrintNat(n / 10) + [DigitChar(n % 10)];
      assert s[..|s| - 1] == PrintNat(n / 10);
      s
  }

  /** An unsigned number that must fit below `limit`. */
  function ParseNat(s: string, limit: nat): Option<nat> {
    if s != "" && AllDigits(s) && Value(s) <= limit then Some(Value(s)) else None
  }

  const I64_MAX: nat := 0x7FFF_FFFF_FFFF_FFFF
  const I64_MIN: int := -0x8000_0000_0000_0000

  function PrintInt(n: int): string {
    if n < 0 then "-" + PrintNat(-n) else PrintNat(n)
  }

  function ParseI64(s: string): Option<int> {
    if s != "" && s[0] == '-' then
      match ParseNat(s[1..], I64_MAX + 1)
      case Some(n) => Some(0 - n as int)
      case None => None
    else ParseNat(s, I64_MAX)
  }

  /** Exactly `width` digits. */
  function PrintPadded(n: nat, width: nat): (s: string)
    ensures AllDigits(s) && |s| == width
  {
    if width == 0 then "" else PrintPadded(n / 10, width - 1) + [DigitChar(n % 10)]
  }

  function Pow10(n: nat): (r: nat)
    ensures r > 0
  {
    if n == 0 then 1 else 10 * Pow10(n - 1)
  }

  lemma PaddedUnfolds(n: nat, width: nat)
    requires width > 0
    ensures Value(PrintPadded(n, width)) == Value(PrintPadded(n / 10, width - 1)) * 10 + n % 10
    ensures n < Pow10(width) ==> n / 10 < Pow10(width - 1)
  {
    var s := PrintPadded(n, width);
    assert s[..|s| - 1] == PrintPadded(n / 10, width - 1);
    hide PrintPadded;
  }

  lemma {:induction false} PaddedValue(n: nat, width: nat)
    requires n < Pow10(width)
    ensures Value(PrintPadded(n, width)) == n
  {
    hide *;
    if width == 0 {
      PaddedNothing(n);
    } else {
      PaddedUnfolds(n, width);
      PaddedValue(n / 10, width - 1);
    }
  }

  lemma PaddedNothing(n: nat)
    requires n < Pow10(0)
    ensures Value(PrintPadded(n, 0)) == n
  {
  }

  const MICROS: nat := 1_000_000

  /** Seconds with six decimals, from microseconds. */
  function PrintSeconds(micros: nat): string {
    PrintNat(micros / MICROS) + "." + PrintPadded(micros % MICROS, 6)
  }

  /** Seconds with one to six decimals, as microseconds, not above `limit` seconds. */
  function ParseSeconds(s: string, limit: nat): Option<nat> {
    var dot := IndexOf(s, '.');
    if dot == |s| then
      match ParseNat(s, limit) case Some(n) => Some(n * MICROS) case None => None
    else
      var whole, fraction := s[..dot], s[dot + 1..];
      if whole == "" || !AllDigits(whole) || !AllDigits(fraction) || fraction == "" || |fraction| > 6 then None
      else
        var micros := Value(whole) * MICROS + Value(fraction) * Pow10(6 - |fraction|);
        if micros <= limit * MICROS then Some(micros) else None
  }

  lemma ParsePrintedNat(n: nat, limit: nat)
    requires n <= limit
    ensures ParseNat(PrintNat(n), limit) == Some(n)
  {
  }

  lemma ParsePrintedInt(n: int)
    requires I64_MIN <= n <= I64_MAX
    ensures ParseI64(PrintInt(n)) == Option<int>.Some(n)
  {
    if n < 0 {
      assert PrintInt(n)[1..] == PrintNat(-n);
    } else {
      assert IsDigit(PrintNat(n)[0]);
    }
  }

  lemma DotFound(whole: string, fraction: string)
    requires AllDigits(whole)
    ensures var s := whole + "." + fraction;
      IndexOf(s, '.') == |whole| < |s| && s[..|whole|] == whole && s[|whole| + 1..] == fraction
  {
    var s := whole + "." + fraction;
    assert s[|whole|] == '.';
    assert forall i :: 0 <= i < |whole| ==> s[i] == whole[i] && IsDigit(s[i]);
  }

  lemma {:induction false} ParsePrintedSeconds(micros: nat, limit: nat)
    requires micros <= limit * MICROS
    ensures ParseSeconds(PrintSeconds(micros), limit) == Some(micros)
  {
    var whole, fraction := PrintNat(micros / MICROS), PrintPadded(micros % MICROS, 6);
    DotFound(whole, fraction);
    assert Pow10(6) == MICROS && Pow10(0) == 1 by {
      assert Pow10(1) == 10 && Pow10(2) == 100 && Pow10(3) == 1000;
    }
    PaddedValue(micros % MICROS, 6);
    hide PrintNat, PrintPadded, Value, AllDigits, IndexOf, Pow10;
  }
}
