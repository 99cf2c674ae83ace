/** Small vocabulary shared by the models: optional values, the saturating
    counters of the source, and counting arguments over finite index ranges. */
module Basics {

  datatype Option<+T> = None | Some(value: T)

  const U32_MODULUS: nat := 0x1_0000_0000
  const U32_MAX: nat := 0xFFFF_FFFF
  const U64_MAX: nat := 0xFFFF_FFFF_FFFF_FFFF

  type U64 = n: nat | n <= U64_MAX

  function Min(a: int, b: int): int {
    if a < b then a else b
  }

  function Max(a: int, b: int): int {
    if a < b then b else a
  }

  /** The 64-bit saturating addition of the counters. */
  function SatAdd(a: nat, b: nat): U64 {
    Min(U64_MAX, a + b)
  }

  /** Adding the elements one after the other with saturation. */
  function SatSum(xs: seq<nat>): U64 {
    if xs == [] then 0 else SatAdd(SatSum(xs[..|xs| - 1]), xs[|xs| - 1])
  }

  function Sum(xs: seq<nat>): nat {
    if xs == [] then 0 else Sum(xs[..|xs| - 1]) + xs[|xs| - 1]
  }

  /** Saturating on every addition loses nothing over capping the exact total once. */
  lemma {:induction false} SatSumIsCappedSum(xs: seq<nat>)
    ensures SatSum(xs) == Min(U64_MAX, Sum(xs))
  {
    if xs != [] {
      SatSumIsCappedSum(xs[..|xs| - 1]);
    }
  }

  /** The first index of a character, the length of the text when it holds none. */
  function IndexOf(s: string, c: char): (r: nat)
    ensures r <= |s| && (r < |s| ==> s[r] == c)
    ensures forall i :: 0 <= i < r ==> s[i] != c
  {
    if s == "" || s[0] == c then 0 else 1 + IndexOf(s[1..], c)
  }

  /** The non-empty parts of a text between the separators, as strtok finds them. */
  function Tokens(s: string, c: char): seq<string>
    decreases |s|
  {
    if s == "" then []
    else
      var n := IndexOf(s, c);
      (if n == 0 then [] else [s[..n]]) + (if n < |s| then Tokens(s[n + 1..], c) else [])
  }

  // ASCII lower case.
  function LowerChar(c: char): char {
    if 'A' <= c <= 'Z' then c + 32 as char else c
  }

  function Lower(s: string): (r: string)
    ensures |r| == |s| && forall i :: 0 <= i < |s| ==> r[i] == LowerChar(s[i])
  {
    if s == "" then "" else Lower(s[..|s| - 1]) + [LowerChar(s[|s| - 1])]
  }

  /** The indices below n. */
  ghost function Below(n: nat): (r: set<nat>)
    ensures forall i: nat :: i in r <==> i < n
    ensures |r| == n
  {
    if n == 0 then {} else Below(n - 1) + {n - 1}
  }

  lemma {:induction false} SubsetSize<T>(a: set<T>, b: set<T>)
    requires a <= b
    ensures |a| <= |b|
    ensures |a| == |b| ==> a == b
  {
    if a != {} {
      var x :| x in a;
      SubsetSize(a - {x}, b - {x});
      assert a == (a - {x}) + {x} && b == (b - {x}) + {x};
    }
  }

  /** Pigeonhole: pairwise different indices below n number at most n, and n of them are all. */
  lemma {:induction false} DistinctIndices(s: seq<nat>, n: nat)
    requires forall i :: 0 <= i < |s| ==> s[i] < n
    requires forall i, j :: 0 <= i < j < |s| ==> s[i] != s[j]
    ensures |s| <= n
    ensures |s| == n ==> forall x: nat :: x < n ==> x in s
  {
    var elements := set x | x in s;
    DistinctSize(s);
    assert elements <= Below(n);
    SubsetSize(elements, Below(n));
    if |s| == n {
      forall x: nat | x < n ensures x in s {
        assert x in Below(n);
      }
    }
  }

  lemma {:induction false} DistinctSize<T>(s: seq<T>)
    requires forall i, j :: 0 <= i < j < |s| ==> s[i] != s[j]
    ensures |set x | x in s| == |s|
  {
    if s == [] {
      assert (set x | x in s) == {};
    } else {
      var prefix := s[..|s| - 1];
      DistinctSize(prefix);
      assert (set x | x in s) == (set x | x in prefix) + {s[|s| - 1]};
    }
  }
}
