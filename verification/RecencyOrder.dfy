/** The records of App History and the order in which they age (src/history.c). */
module RecencyOrder {
  import opened Basics

  /** One application's cumulative record. CPU and active time are held in nanoseconds;
      `live` is the snapshot generation that last touched the record, 0 for none. */
  datatype Entry = Entry(
    key: string, name: string, user: string, identity: string,
    cpu: nat, active: nat, read: U64, write: U64,
    peak: U64, current: U64, live: nat,
    firstSeen: int, lastSeen: int)

  type Entries = map<string, Entry>

  /** Every record is filed under its own key. */
  ghost predicate Keyed(m: Entries) {
    forall k :: k in m ==> m[k].key == k
  }

  /** The sign of C's strcmp. */
  function StrCompare(a: string, b: string): int {
    if a == [] && b == [] then 0
    else if a == [] then -1
    else if b == [] then 1
    else if a[0] != b[0] then if a[0] < b[0] then -1 else 1
    else StrCompare(a[1..], b[1..])
  }

  /** Negative when `left` was used less recently than `right`. */
  function RecencyCompare(left: Entry, right: Entry): int {
    if left.lastSeen != right.lastSeen then
      if left.lastSeen < right.lastSeen then -1 else 1
    else if left.firstSeen != right.firstSeen then
      if left.firstSeen < right.firstSeen then -1 else 1
    else StrCompare(left.key, right.key)
  }

  predicate Older(a: Entry, b: Entry) {
    RecencyCompare(a, b) < 0
  }

  /** The texts agree up to position n, where `a` ends or has the smaller character. */
  predicate SmallerAt(a: string, b: string, n: nat) {
    && n <= |a| && n < |b| && a[..n] == b[..n]
    && (n < |a| ==> a[n] < b[n])
  }

  /** Text `a` comes before `b`, as the first position where they differ decides. */
  ghost predicate Before(a: string, b: string) {
    exists n: nat :: SmallerAt(a, b, n)
  }

  lemma SmallerBehindHead(a: string, b: string, n: nat)
    requires SmallerAt(a, b, n)
    ensures n > 0 ==> a != "" && a[0] == b[0]
  {
    if n > 0 {
      assert a[..n][0] == b[..n][0];
    }
  }

  lemma {:induction false} StrCompareIsFirstDifference(a: string, b: string)
    ensures StrCompare(a, b) < 0 <==> Before(a, b)
  {
    if a == [] || b == [] || a[0] != b[0] {
      if StrCompare(a, b) < 0 {
        assert SmallerAt(a, b, 0);
      }
      if Before(a, b) {
        var n: nat :| SmallerAt(a, b, n);
        SmallerBehindHead(a, b, n);
      }
    } else {
      StrCompareIsFirstDifference(a[1..], b[1..]);
      if Before(a[1..], b[1..]) {
        var n: nat :| SmallerAt(a[1..], b[1..], n);
        assert a[..n + 1] == [a[0]] + a[1..][..n] && b[..n + 1] == [b[0]] + b[1..][..n];
        assert SmallerAt(a, b, n + 1);
      }
      if Before(a, b) {
        var n: nat :| SmallerAt(a, b, n);
        assert n > 0;
        assert a[1..][..n - 1] == a[..n][1..] && b[1..][..n - 1] == b[..n][1..];
        assert SmallerAt(a[1..], b[1..], n - 1);
      }
    }
  }

  /** Less recently used is what was last used earlier; then what was first used earlier; then what
      has the smaller key. */
  lemma {:induction false} OlderMeans(a: Entry, b: Entry)
    ensures Older(a, b) <==>
      || a.lastSeen < b.lastSeen
      || (a.lastSeen == b.lastSeen && (a.firstSeen < b.firstSeen || (a.firstSeen == b.firstSeen && Before(a.key, b.key))))
  {
    StrCompareIsFirstDifference(a.key, b.key);
    hide StrCompare, Before;
  }

  lemma {:induction false} StrCompareAntisymmetric(a: string, b: string)
    ensures StrCompare(a, b) == -StrCompare(b, a)
    ensures StrCompare(a, b) == 0 <==> a == b
  {
    if a != [] && b != [] && a[0] == b[0] {
      StrCompareAntisymmetric(a[1..], b[1..]);
      assert a == [a[0]] + a[1..] && b == [b[0]] + b[1..];
    }
  }

  lemma {:induction false} StrCompareTransitive(a: string, b: string, c: string)
    requires StrCompare(a, b) < 0 && StrCompare(b, c) < 0
    ensures StrCompare(a, c) < 0
  {
    if a != [] && b != [] && c != [] && a[0] == b[0] == c[0] {
      StrCompareTransitive(a[1..], b[1..], c[1..]);
    }
  }

  /** Records with different keys are never equally old, and neither is older both ways. */
  lemma OlderIsTotal(a: Entry, b: Entry)
    ensures !(Older(a, b) && Older(b, a))
    ensures a.key != b.key ==> Older(a, b) || Older(b, a)
    ensures RecencyCompare(a, b) <= 0 <==> !Older(b, a)
  {
    StrCompareAntisymmetric(a.key, b.key);
  }

  lemma OlderIsTransitive(a: Entry, b: Entry, c: Entry)
    requires Older(a, b) && Older(b, c)
    ensures Older(a, c)
  {
    if a.lastSeen == b.lastSeen == c.lastSeen && a.firstSeen == b.firstSeen == c.firstSeen {
      StrCompareTransitive(a.key, b.key, c.key);
    }
  }

  /** Pairwise different keys. */
  ghost predicate DistinctKeys(s: seq<Entry>) {
    forall i, j :: 0 <= i < j < |s| ==> s[i].key != s[j].key
  }

  ghost predicate Ascending(s: seq<Entry>) {
    forall i, j :: 0 <= i < j < |s| ==> Older(s[i], s[j])
  }

  function Insert(e: Entry, s: seq<Entry>): (r: seq<Entry>)
    requires Ascending(s)
    requires forall x :: x in s ==> x.key != e.key
    ensures Ascending(r) && |r| == |s| + 1
    ensures forall x :: x in r <==> x == e || x in s
  {
    if s == [] then [e]
    else
      OlderIsTotal(e, s[0]);
      if Older(e, s[0]) then
        assert forall i :: 0 < i < |s| ==> Older(e, s[i]) by {
          forall i | 0 < i < |s| ensures Older(e, s[i]) { OlderIsTransitive(e, s[0], s[i]); }
        }
        [e] + s
      else
        assert s == [s[0]] + s[1..];
        var tail := Insert(e, s[1..]);
        assert forall x :: x in tail ==> Older(s[0], x);
        [s[0]] + tail
  }

  /** What the qsort call leaves: the same records, oldest first. */
  function SortByRecency(s: seq<Entry>): (r: seq<Entry>)
    requires DistinctKeys(s)
    ensures Ascending(r) && |r| == |s|
    ensures forall x :: x in r <==> x in s
  {
    if s == [] then []
    else
      assert s == [s[0]] + s[1..];
      Insert(s[0], SortByRecency(s[1..]))
  }
}
