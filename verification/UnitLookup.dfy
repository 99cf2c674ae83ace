/** Finding the application of a process from its systemd unit (src/application_catalog.c): unit
    names are searched for a registered identity, leftmost start and longest end first. */
module UnitLookup {
  import opened Basics

  const NAME_SIZE: nat := 128
  const PATH_SIZE: nat := 512

  // ----- Identities -----

  function Basename(s: string): (r: string)
    ensures '/' !in r && |r| <= |s| && r == s[|s| - |r|..] && (|r| < |s| ==> s[|s| - |r| - 1] == '/')
  {
    if s == "" || s[|s| - 1] == '/' then "" else Basename(s[..|s| - 1]) + [s[|s| - 1]]
  }

  /** The form in which identities are compared. */
  function Normalised(identity: string): (r: string)
    ensures |r| < NAME_SIZE
  {
    var base := Basename(identity);
    Lower(if |base| < NAME_SIZE then base else base[..NAME_SIZE - 1])
  }

  lemma BasenameStep(s: string, c: char)
    ensures Basename(s + [c]) == if c == '/' then "" else Basename(s) + [c]
    ensures Basename("") == ""
  {
    assert (s + [c])[..|s|] == s;
  }

  lemma FrontAndLast(directory: string, base: string)
    requires base != "" && '/' !in base
    ensures var n := |base| - 1;
      && '/' !in base[..n] && base[n] != '/' && base == base[..n] + [base[n]]
      && directory + "/" + base == (directory + "/" + base[..n]) + [base[n]]
  {
    var n := |base| - 1;
    assert base[n] in base;
    assert forall i :: 0 <= i < n ==> base[..n][i] == base[i] && base[i] in base;
  }

  lemma {:induction false} BasenameBehindSlash(directory: string, base: string)
    requires '/' !in base
    ensures Basename(directory + "/" + base) == base && Basename(base) == base
    decreases |base|
  {
    hide *;
    if base == "" {
      assert directory + "/" + base == directory + ['/'];
      BasenameStep(directory, '/');
    } else {
      var n := |base| - 1;
      FrontAndLast(directory, base);
      BasenameBehindSlash(directory, base[..n]);
      BasenameStep(base[..n], base[n]);
      BasenameStep(directory + "/" + base[..n], base[n]);
    }
  }

  lemma {:induction false} LowerDecides(a: string, b: string)
    ensures Lower(a) == Lower(b) <==> |a| == |b| && forall i :: 0 <= i < |a| ==> LowerChar(a[i]) == LowerChar(b[i])
    ensures Lower(a) == "" <==> a == ""
  {
    hide LowerChar;
    assert |Lower(a)| == |a| && |Lower(b)| == |b|;
    assert forall i :: 0 <= i < |a| ==> Lower(a)[i] == LowerChar(a[i]);
    assert forall i :: 0 <= i < |b| ==> Lower(b)[i] == LowerChar(b[i]);
    if Lower(a) == Lower(b) {
      forall i | 0 <= i < |a| ensures LowerChar(a[i]) == LowerChar(b[i]) {
        assert Lower(a)[i] == Lower(b)[i];
      }
    }
  }

  lemma NormalisedBasename(identity: string, base: string)
    requires Basename(identity) == base && |base| < NAME_SIZE
    ensures Normalised(identity) == Lower(base)
  {
    hide Lower;
  }

  /** An identity counts by its last path component, up to case: a directory makes no difference, and
      two names that fit the buffer are one identity exactly when they are equal up to case. */
  lemma {:induction false} IdentityIsTheBasename(directory: string, a: string, b: string)
    requires '/' !in a && '/' !in b && |a| < NAME_SIZE && |b| < NAME_SIZE
    ensures Normalised(directory + "/" + a) == Normalised(a)
    ensures Normalised(a) == Normalised(b) <==> |a| == |b| && forall i :: 0 <= i < |a| ==> LowerChar(a[i]) == LowerChar(b[i])
    ensures Normalised(a) == "" <==> a == ""
  {
    hide *;
    BasenameBehindSlash(directory, a);
    BasenameBehindSlash(directory, b);
    NormalisedBasename(directory + "/" + a, a);
    NormalisedBasename(a, a);
    NormalisedBasename(b, b);
    LowerDecides(a, b);
  }

  type Catalog = map<string, nat>

  function Identify(catalog: Catalog, identity: string): Option<nat> {
    var key := Normalised(identity);
    if key != "" && key in catalog then Some(catalog[key]) else None
  }

  /** The catalog after one registration. */
  function With(catalog: Catalog, identity: string, entry: nat): Catalog {
    var key := Normalised(identity);
    if key == "" || key in catalog then catalog else catalog[key := entry]
  }

  function Registered(registrations: seq<(string, nat)>): Catalog {
    if registrations == [] then map[]
    else
      var n := |registrations| - 1;
      With(Registered(registrations[..n]), registrations[n].0, registrations[n].1)
  }

  /** Registration i is the first under the identity of this name. */
  ghost predicate IsFirstAs(registrations: seq<(string, nat)>, name: string, i: int) {
    && 0 <= i < |registrations| && Normalised(registrations[i].0) == Normalised(name)
    && forall j :: 0 <= j < i ==> Normalised(registrations[j].0) != Normalised(name)
  }

  lemma WithOneMore(catalog: Catalog, identity: string, entry: nat, name: string)
    ensures Identify(With(catalog, identity, entry), name) ==
      if Normalised(name) != "" && Identify(catalog, name).None? && Normalised(identity) == Normalised(name) then Some(entry)
      else Identify(catalog, name)
  {
    hide Normalised;
  }

  lemma RegisteredUnfolds(registrations: seq<(string, nat)>)
    requires registrations != []
    ensures var n := |registrations| - 1;
      Registered(registrations) == With(Registered(registrations[..n]), registrations[n].0, registrations[n].1)
  {
  }

  lemma {:induction false} NothingRegistered(registrations: seq<(string, nat)>, name: string)
    requires Normalised(name) == "" || forall j :: 0 <= j < |registrations| ==> Normalised(registrations[j].0) != Normalised(name)
    ensures Identify(Registered(registrations), name) == None
  {
    hide Normalised;
    if registrations != [] {
      var n := |registrations| - 1;
      NothingRegistered(registrations[..n], name);
      RegisteredUnfolds(registrations);
      WithOneMore(Registered(registrations[..n]), registrations[n].0, registrations[n].1, name);
      hide Identify, With, Registered;
    }
  }

  lemma {:induction false} FirstIsFound(registrations: seq<(string, nat)>, name: string, i: nat)
    requires IsFirstAs(registrations, name, i) && Normalised(name) != ""
    ensures Identify(Registered(registrations), name) == Some(registrations[i].1)
  {
    hide Normalised, Identify, With, Registered;
    var n := |registrations| - 1;
    RegisteredUnfolds(registrations);
    WithOneMore(Registered(registrations[..n]), registrations[n].0, registrations[n].1, name);
    if i < n {
      FirstIsFound(registrations[..n], name, i);
    } else {
      NothingRegistered(registrations[..n], name);
    }
  }

  lemma {:induction false} SomeIsFirst(registrations: seq<(string, nat)>, name: string, j: nat) returns (i: nat)
    requires j < |registrations| && Normalised(registrations[j].0) == Normalised(name)
    ensures IsFirstAs(registrations, name, i)
  {
    hide Normalised;
    i := 0;
    while Normalised(registrations[i].0) != Normalised(name)
      invariant i <= j && forall k :: 0 <= k < i ==> Normalised(registrations[k].0) != Normalised(name)
      decreases j - i
    {
      i := i + 1;
    }
  }

  /** A name is found if and only if it is not empty and was registered, and as the first entry
      registered under it. */
  lemma {:induction false} FirstRegistrationCounts(registrations: seq<(string, nat)>, name: string, entry: nat)
    ensures Identify(Registered(registrations), name) == Some(entry) <==>
      Normalised(name) != "" && exists i :: IsFirstAs(registrations, name, i) && registrations[i].1 == entry
  {
    hide Normalised, Identify, Registered;
    if j :| 0 <= j < |registrations| && Normalised(registrations[j].0) == Normalised(name) && Normalised(name) != "" {
      var i := SomeIsFirst(registrations, name, j);
      FirstIsFound(registrations, name, i);
    } else {
      NothingRegistered(registrations, name);
    }
  }

  /** The identities of the installed applications; the first to claim one keeps it. */
  class Registry {
    var byExecutable: Catalog

    constructor ()
      ensures byExecutable == map[]
    {
      byExecutable := map[];
    }

    method Register(identity: string, entry: nat)
      modifies this
      ensures Normalised(identity) != "" ==>
        Identify(byExecutable, identity) == if Identify(old(byExecutable), identity).Some? then Identify(old(byExecutable), identity) else Some(entry)
      ensures forall other :: Normalised(other) != Normalised(identity) ==>
        Identify(byExecutable, other) == Identify(old(byExecutable), other)
      ensures byExecutable == With(old(byExecutable), identity, entry)
    {
      var key := Normalised(identity);
      if key == "" || key in byExecutable {
        return;
      }
      byExecutable := byExecutable[key := entry];
    }
  }

  // ----- What is searched -----

  /** The payload as it is searched: what fits the buffer, without a template instance. */
  function Candidate(payload: string): string {
    var stored := if |payload| < PATH_SIZE then payload else payload[..PATH_SIZE - 1];
    stored[..IndexOf(stored, '@')]
  }

  /** Where the part of c that holds index i ends. */
  function PartEnd(c: string, i: nat): (r: nat)
    requires i <= |c|
    ensures i <= r <= |c| && (r < |c| ==> c[r] == '-') && forall k :: i <= k < r ==> c[k] != '-'
    decreases |c| - i
  {
    if i == |c| || c[i] == '-' then i else PartEnd(c, i + 1)
  }

  /** The stretch of c that is looked up: it starts at a part of c behind which a dot follows. For
      a service it is the whole rest; for a scope parts may be dropped from its end, and the
      stretch with one part more must still hold a dot. */
  ghost predicate IsVariant(c: string, scope: bool, start: int, end: int) {
    && 0 <= start < end <= |c|
    && (start == 0 || c[start - 1] == '-')
    && '.' in c[start..]
    && (end == |c| || (scope && c[end] == '-' && '.' in c[start..PartEnd(c, end + 1)]))
  }

  /** Variants with an earlier start come first, then the longer ones. */
  predicate Precedes(start: int, end: int, otherStart: int, otherEnd: int) {
    start < otherStart || (start == otherStart && end > otherEnd)
  }

  ghost predicate Fails(catalog: Catalog, c: string, scope: bool, start: int, end: int) {
    IsVariant(c, scope, start, end) ==> Identify(catalog, c[start..end]).None?
  }

  ghost predicate IsFirstMatch(catalog: Catalog, c: string, scope: bool, start: int, end: int, entry: Option<nat>) {
    && IsVariant(c, scope, start, end) && Identify(catalog, c[start..end]) == entry && entry.Some?
    && forall s, e :: Precedes(s, e, start, end) ==> Fails(catalog, c, scope, s, e)
  }

  /** The entry of the first variant that has one. */
  ghost predicate Resolves(catalog: Catalog, c: string, scope: bool, entry: Option<nat>) {
    if entry.None? then forall s, e :: Fails(catalog, c, scope, s, e)
    else exists s, e :: IsFirstMatch(catalog, c, scope, s, e, entry)
  }

  /** There is one result: it is that entry, if any. */
  lemma {:induction false} ResolvesOnce(catalog: Catalog, c: string, scope: bool, a: Option<nat>, b: Option<nat>)
    requires Resolves(catalog, c, scope, a) && Resolves(catalog, c, scope, b)
    ensures a == b
  {
    hide Identify, IsVariant;
    if a.Some? && b.Some? {
      var s, e :| IsFirstMatch(catalog, c, scope, s, e, a);
      var t, f :| IsFirstMatch(catalog, c, scope, t, f, b);
      assert Precedes(s, e, t, f) ==> Fails(catalog, c, scope, s, e);
      assert Precedes(t, f, s, e) ==> Fails(catalog, c, scope, t, f);
    } else if a.Some? {
      var s, e :| IsFirstMatch(catalog, c, scope, s, e, a);
      FirstMatchSucceeds(catalog, c, scope, s, e, a);
    } else if b.Some? {
      var s, e :| IsFirstMatch(catalog, c, scope, s, e, b);
      FirstMatchSucceeds(catalog, c, scope, s, e, b);
    }
  }

  lemma FirstMatchSucceeds(catalog: Catalog, c: string, scope: bool, start: int, end: int, entry: Option<nat>)
    requires IsFirstMatch(catalog, c, scope, start, end, entry)
    ensures !Fails(catalog, c, scope, start, end)
  {
  }

  // ----- The search -----

  function LastDash(s: string): (r: Option<nat>)
    ensures r.Some? ==> r.value < |s| && s[r.value] == '-' && forall i :: r.value < i < |s| ==> s[i] != '-'
    ensures r.None? ==> '-' !in s
  {
    if s == "" then None else if s[|s| - 1] == '-' then Some(|s| - 1) else LastDash(s[..|s| - 1])
  }

  lemma ShorterAreNoVariants(c: string, scope: bool, start: nat, end: nat, from: nat)
    requires IsVariant(c, scope, start, end) && start <= from <= end
    requires !scope || (forall k :: from < k < end ==> c[k] != '-') || '.' !in c[start..end]
    ensures forall e :: from < e < end ==> !IsVariant(c, scope, start, e)
    ensures from == start ==> forall e :: e < end ==> !IsVariant(c, scope, start, e)
  {
    forall e | from < e < end ensures !IsVariant(c, scope, start, e) {
      if '.' !in c[start..end] {
        assert PartEnd(c, e + 1) <= end;
        assert c[start..PartEnd(c, e + 1)] == c[start..end][..PartEnd(c, e + 1) - start];
      }
    }
  }

  /** Dropping the last part of a variant that still holds a dot gives the next variant. */
  lemma {:induction false} NextVariant(c: string, start: nat, end: nat, next: nat)
    requires IsVariant(c, true, start, end) && '.' in c[start..end] && start <= next < end
    requires c[next] == '-' && forall k :: next < k < end ==> c[k] != '-'
    ensures next > start ==> IsVariant(c, true, start, next)
  {
    assert end < |c| ==> c[end] == '-';
    assert PartEnd(c, next + 1) == end;
  }

  /** No variant from this start that is longer than to `end` has an entry. */
  ghost predicate LongerFail(catalog: Catalog, c: string, scope: bool, start: int, end: int) {
    forall e :: e > end ==> Fails(catalog, c, scope, start, e)
  }

  lemma LongerFailStep(catalog: Catalog, c: string, scope: bool, start: nat, end: nat, next: nat)
    requires LongerFail(catalog, c, scope, start, end) && start < end <= |c| && Identify(catalog, c[start..end]).None?
    requires start <= next < end && forall e :: next < e < end ==> !IsVariant(c, scope, start, e)
    ensures LongerFail(catalog, c, scope, start, next)
  {
    hide Identify, IsVariant;
  }

  /** After a variant failed that has no part to drop, or held no dot, none is left from its start. */
  lemma {:induction false} NoneLeft(catalog: Catalog, c: string, scope: bool, start: nat, end: nat)
    requires IsVariant(c, scope, start, end) && LongerFail(catalog, c, scope, start, end)
    requires Identify(catalog, c[start..end]).None?
    requires !scope || LastDash(c[start..end]).None? || '.' !in c[start..end]
    ensures LongerFail(catalog, c, scope, start, start)
  {
    DashesOf(c, start, end);
    ShorterAreNoVariants(c, scope, start, end, start);
    hide Identify, IsVariant, LongerFail, LastDash, PartEnd;
    LongerFailStep(catalog, c, scope, start, end, start);
  }

  lemma VariantBounds(c: string, scope: bool, start: int, end: int)
    requires IsVariant(c, scope, start, end)
    ensures 0 <= start < end <= |c|
  {
    hide PartEnd;
  }

  lemma NothingLonger(catalog: Catalog, c: string, scope: bool, start: int)
    ensures LongerFail(catalog, c, scope, start, |c|)
  {
    hide Identify, PartEnd;
  }

  /** Otherwise its last part is dropped. */
  lemma {:induction false} OneLess(catalog: Catalog, c: string, start: nat, end: nat, dash: nat)
    requires IsVariant(c, true, start, end) && LongerFail(catalog, c, true, start, end)
    requires Identify(catalog, c[start..end]).None?
    requires LastDash(c[start..end]) == Some(dash) && '.' in c[start..end]
    ensures LongerFail(catalog, c, true, start, start + dash)
    ensures dash > 0 ==> IsVariant(c, true, start, start + dash)
  {
    hide *;
    VariantBounds(c, true, start, end);
    DashesOf(c, start, end);
    ShorterAreNoVariants(c, true, start, end, start + dash);
    NextVariant(c, start, end, start + dash);
    LongerFailStep(catalog, c, true, start, end, start + dash);
  }

  /** Tries the variants from one start on, dropping parts from the right for a scope. */
  method TryEnds(catalog: Catalog, c: string, scope: bool, start: nat) returns (entry: Option<nat>, ghost at: nat)
    requires IsVariant(c, scope, start, |c|)
    ensures entry.None? ==> LongerFail(catalog, c, scope, start, start)
    ensures entry.Some? ==> LongerFail(catalog, c, scope, start, at) &&
                            IsVariant(c, scope, start, at) && Identify(catalog, c[start..at]) == entry
  {
    hide *;
    VariantBounds(c, scope, start, |c|);
    NothingLonger(catalog, c, scope, start);
    var variant := c[start..];
    at := |c|;
    while true
      invariant start < at <= |c| && variant == c[start..at] && IsVariant(c, scope, start, at)
      invariant LongerFail(catalog, c, scope, start, at)
      decreases at
    {
      entry := Identify(catalog, variant);
      if entry.Some? {
        return;
      }
      var dash := LastDash(variant);
      DashesOf(c, start, at);
      if !scope || dash.None? || '.' !in variant {
        NoneLeft(catalog, c, scope, start, at);
        break;
      }
      OneLess(catalog, c, start, at, dash.value);
      variant := variant[..dash.value];
      at := start + dash.value;
      if variant == "" {
        return None, at;
      }
    }
  }

  lemma DashesOf(c: string, start: nat, end: nat)
    requires start <= end <= |c|
    ensures match LastDash(c[start..end])
            case None => forall k :: start <= k < end ==> c[k] != '-'
            case Some(d) => start + d < end && c[start + d] == '-' && forall k :: start + d < k < end ==> c[k] != '-'
  {
    var part := c[start..end];
    assert forall k :: start <= k < end ==> c[k] == part[k - start];
  }

  /** No variant with an earlier start has an entry. */
  ghost predicate EarlierFail(catalog: Catalog, c: string, scope: bool, start: int) {
    forall s, e :: s < start ==> Fails(catalog, c, scope, s, e)
  }

  lemma NothingEarlier(catalog: Catalog, c: string, scope: bool)
    ensures EarlierFail(catalog, c, scope, 0)
  {
    hide Identify, PartEnd;
  }

  /** Where the part behind the next hyphen starts. */
  function NextStart(c: string, start: nat): (r: nat)
    requires start < |c|
    ensures start < r <= |c|
  {
    var dash := PartEnd(c, start);
    if dash < |c| then dash + 1 else |c|
  }

  /** The starts up to there are done when none is left from this one. */
  lemma {:induction false} NextStartFails(catalog: Catalog, c: string, scope: bool, start: nat)
    requires start < |c| && EarlierFail(catalog, c, scope, start)
    requires '.' !in c[start..] || LongerFail(catalog, c, scope, start, start)
    ensures EarlierFail(catalog, c, scope, NextStart(c, start))
    ensures NextStart(c, start) == |c| || c[NextStart(c, start) - 1] == '-'
  {
    hide Identify;
    forall s, e | s < NextStart(c, start) ensures Fails(catalog, c, scope, s, e) {
      if s == start {
        hide PartEnd;
      }
    }
  }

  lemma {:induction false} AllFailed(catalog: Catalog, c: string, scope: bool)
    requires EarlierFail(catalog, c, scope, |c|)
    ensures Resolves(catalog, c, scope, None)
  {
    hide Identify, PartEnd;
    forall s, e ensures Fails(catalog, c, scope, s, e) {
    }
  }

  lemma {:induction false} FirstFound(catalog: Catalog, c: string, scope: bool, start: nat, end: nat, entry: Option<nat>)
    requires EarlierFail(catalog, c, scope, start) && LongerFail(catalog, c, scope, start, end) && entry.Some?
    requires IsVariant(c, scope, start, end) && Identify(catalog, c[start..end]) == entry
    ensures Resolves(catalog, c, scope, entry)
  {
    hide Identify, PartEnd, IsVariant;
    assert IsFirstMatch(catalog, c, scope, start, end, entry);
  }

  lemma WholeRest(c: string, scope: bool, start: nat)
    requires start < |c| && (start == 0 || c[start - 1] == '-') && '.' in c[start..]
    ensures IsVariant(c, scope, start, |c|)
  {
    hide PartEnd;
  }

  /** Looks a unit's payload up, from every part of it on. */
  method LookupPayload(catalog: Catalog, payload: string, scope: bool) returns (entry: Option<nat>)
    ensures Resolves(catalog, Candidate(payload), scope, entry)
  {
    hide *;
    var candidate := Candidate(payload);
    var start := 0;
    ghost var at;
    NothingEarlier(catalog, candidate, scope);
    while start < |candidate|
      invariant start <= |candidate| && (start == 0 || start == |candidate| || candidate[start - 1] == '-')
      invariant EarlierFail(catalog, candidate, scope, start)
    {
      if '.' in candidate[start..] {
        WholeRest(candidate, scope, start);
        entry, at := TryEnds(catalog, candidate, scope, start);
        if entry.Some? {
          FirstFound(catalog, candidate, scope, start, at, entry);
          return;
        }
      }
      NextStartFails(catalog, candidate, scope, start);
      start := NextStart(candidate, start);
    }
    entry := None;
    AllFailed(catalog, candidate, scope);
  }

  // ----- Unit names that are always found -----

  /** A launcher prefix ends with a hyphen. */
  predicate IsPrefix(prefix: string) {
    prefix == "" || prefix[|prefix| - 1] == '-'
  }

  lemma {:induction false} IndexOfSkips(a: string, b: string, c: char)
    requires c !in a
    ensures IndexOf(a + b, c) == |a| + IndexOf(b, c)
  {
    if a == "" {
      assert a + b == b;
    } else {
      assert (a + b)[1..] == a[1..] + b;
      IndexOfSkips(a[1..], b, c);
    }
  }

  lemma {:induction false} CandidateOf(front: string, rest: string)
    requires |front + rest| < PATH_SIZE && '@' !in front
    ensures Candidate(front + rest) == front + rest[..IndexOf(rest, '@')]
  {
    IndexOfSkips(front, rest, '@');
  }

  lemma {:induction false} FoundWhenVariant(catalog: Catalog, c: string, scope: bool, entry: Option<nat>, s: int, e: int)
    requires Resolves(catalog, c, scope, entry) && IsVariant(c, scope, s, e) && Identify(catalog, c[s..e]).Some?
    ensures entry.Some?
  {
    assert !Fails(catalog, c, scope, s, e);
  }

  lemma {:induction false} SuffixIsVariant(prefix: string, id: string)
    requires IsPrefix(prefix) && '.' in id
    ensures IsVariant(prefix + id, false, |prefix|, |prefix + id|) && (prefix + id)[|prefix|..] == id
  {
  }

  /** A service named [launcher-]AppID, with or without a template instance, is found when its
      dotted AppID is registered. */
  lemma {:induction false} ServicesAreFound(catalog: Catalog, prefix: string, id: string, instance: string, entry: Option<nat>)
    requires IsPrefix(prefix) && '.' in id && '@' !in prefix + id && Identify(catalog, id).Some?
    requires instance == "" || instance[0] == '@'
    requires |prefix + id + instance| < PATH_SIZE
    requires Resolves(catalog, Candidate(prefix + id + instance), false, entry)
    ensures entry.Some?
    ensures prefix == "" ==> entry == Identify(catalog, id)
  {
    hide *;
    var c := prefix + id;
    ServiceCandidate(c, instance);
    SuffixIsVariant(prefix, id);
    assert c[|prefix|..|c|] == c[|prefix|..] == id;
    FoundWhenVariant(catalog, c, false, entry, |prefix|, |c|);
    if prefix == "" {
      assert c == id;
      WholeComesFirst(catalog, c, false, entry);
    }
  }

  lemma {:induction false} ServiceCandidate(c: string, instance: string)
    requires |c + instance| < PATH_SIZE && '@' !in c && (instance == "" || instance[0] == '@')
    ensures Candidate(c + instance) == c
  {
    CandidateOf(c, instance);
  }

  /** Where the whole payload is registered it is the result. */
  lemma {:induction false} WholeComesFirst(catalog: Catalog, c: string, scope: bool, entry: Option<nat>)
    requires Resolves(catalog, c, scope, entry) && '.' in c && Identify(catalog, c).Some?
    ensures entry == Identify(catalog, c)
  {
    assert c[0..] == c && c[0..|c|] == c;
    assert IsVariant(c, scope, 0, |c|);
    forall s, e | Precedes(s, e, 0, |c|) ensures Fails(catalog, c, scope, s, e) {
    }
    assert IsFirstMatch(catalog, c, scope, 0, |c|, Identify(catalog, c));
    ResolvesOnce(catalog, c, scope, entry, Identify(catalog, c));
  }

  /** A scope named [launcher-]AppID-random is found when its dotted AppID is registered. */
  lemma {:induction false} ScopesAreFound(catalog: Catalog, prefix: string, id: string, random: string, entry: Option<nat>)
    requires IsPrefix(prefix) && '.' in id && '@' !in prefix + id && Identify(catalog, id).Some?
    requires |prefix + id + "-" + random| < PATH_SIZE
    requires Resolves(catalog, Candidate(prefix + id + "-" + random), true, entry)
    ensures entry.Some?
  {
    hide *;
    var c := prefix + id + "-" + random[..IndexOf(random, '@')];
    assert '@' !in prefix + id + "-";
    CandidateOf(prefix + id + "-", random);
    InnerIsVariant(prefix, id, random[..IndexOf(random, '@')]);
    FoundWhenVariant(catalog, c, true, entry, |prefix|, |prefix| + |id|);
  }

  lemma {:induction false} InnerIsVariant(prefix: string, id: string, random: string)
    requires IsPrefix(prefix) && '.' in id
    ensures var c, s, e := prefix + id + "-" + random, |prefix|, |prefix| + |id|;
      c[s..e] == id && IsVariant(c, true, s, e)
  {
    var c, s, e := prefix + id + "-" + random, |prefix|, |prefix| + |id|;
    assert c[s..e] == id;
    assert c[e] == '-';
    var i :| 0 <= i < |id| && id[i] == '.';
    assert c[s..][i] == '.' && c[s..PartEnd(c, e + 1)][i] == '.';
    assert s > 0 ==> c[s - 1] == prefix[s - 1];
  }

  // ----- Control group paths -----

  const UNIT_PREFIX: string := "app-"
  const SCOPE_SUFFIX: string := ".scope"
  const SERVICE_SUFFIX: string := ".service"

  datatype Unit = Unit(payload: string, scope: bool)

  predicate EndsWith(s: string, suffix: string) {
    |s| >= |suffix| && s[|s| - |suffix|..] == suffix
  }

  lemma SuffixIsBehindPrefix(component: string, suffix: string)
    requires UNIT_PREFIX <= component && EndsWith(component, suffix) && suffix != "" && suffix[0] == '.'
    ensures |component| >= |UNIT_PREFIX| + |suffix|
  {
    var at := |component| - |suffix|;
    assert component[at] == component[at..][0] == '.';
    assert forall i :: 0 <= i < 4 ==> component[i] == UNIT_PREFIX[i];
  }

  /** The application unit a path component names. */
  function UnitOf(component: string): Option<Unit> {
    if !(UNIT_PREFIX <= component) then None
    else if |component| > 6 && EndsWith(component, SCOPE_SUFFIX) then
      SuffixIsBehindPrefix(component, SCOPE_SUFFIX);
      Some(Unit(component[4..|component| - 6], true))
    else if |component| > 8 && EndsWith(component, SERVICE_SUFFIX) then
      SuffixIsBehindPrefix(component, SERVICE_SUFFIX);
      Some(Unit(component[4..|component| - 8], false))
    else None
  }

  /** Every unit name is read as the payload it was made from. */
  lemma {:induction false} UnitNamesAreRead(payload: string)
    ensures UnitOf(UNIT_PREFIX + payload + SCOPE_SUFFIX) == Some(Unit(payload, true))
    ensures UnitOf(UNIT_PREFIX + payload + SERVICE_SUFFIX) == Some(Unit(payload, false))
  {
    var scope, service := UNIT_PREFIX + payload + SCOPE_SUFFIX, UNIT_PREFIX + payload + SERVICE_SUFFIX;
    assert scope[..4] == UNIT_PREFIX && scope[4..|scope| - 6] == payload && scope[|scope| - 6..] == SCOPE_SUFFIX;
    assert service[..4] == UNIT_PREFIX && service[4..|service| - 8] == payload && service[|service| - 8..] == SERVICE_SUFFIX;
    assert service[|service| - 6..][0] == service[|service| - 6] == SERVICE_SUFFIX[2];
  }

  function Components(path: string): seq<string> {
    Tokens(path, '/')
  }

  ghost predicate ComponentResolves(catalog: Catalog, component: string, entry: Option<nat>) {
    match UnitOf(component)
    case None => entry.None?
    case Some(unit) => Resolves(catalog, Candidate(unit.payload), unit.scope, entry)
  }

  /** The entry of the first component that has one. */
  ghost predicate PathResolves(catalog: Catalog, components: seq<string>, entry: Option<nat>) {
    if entry.None? then forall k :: 0 <= k < |components| ==> ComponentResolves(catalog, components[k], None)
    else exists k :: 0 <= k < |components| && ComponentResolves(catalog, components[k], entry) &&
           forall j :: 0 <= j < k ==> ComponentResolves(catalog, components[j], None)
  }

  method LookupComponent(catalog: Catalog, component: string) returns (matched: Option<nat>)
    ensures ComponentResolves(catalog, component, matched)
  {
    hide Resolves, Candidate;
    matched := None;
    var unit := UnitOf(component);
    if unit.Some? {
      matched := LookupPayload(catalog, unit.value.payload, unit.value.scope);
    }
  }

  lemma {:induction false} ComponentsUnfold(path: string)
    ensures Components("") == []
    ensures path != "" ==> var n := IndexOf(path, '/');
      Components(path) == (if n == 0 then [] else [path[..n]]) + Components(if n < |path| then path[n + 1..] else "")
  {
  }

  lemma FirstComponentFound(catalog: Catalog, done: seq<string>, component: string, rest: seq<string>, entry: Option<nat>)
    requires forall k :: 0 <= k < |done| ==> ComponentResolves(catalog, done[k], None)
    requires ComponentResolves(catalog, component, entry)
    ensures entry.Some? ==> PathResolves(catalog, done + ([component] + rest), entry)
  {
    hide ComponentResolves;
    var all := done + ([component] + rest);
    assert all[|done|] == component && forall k :: 0 <= k < |done| ==> all[k] == done[k];
  }

  /** Takes the components of a path one by one until one is a known application's unit. */
  method LookupCgroup(catalog: Catalog, path: string) returns (matched: Option<nat>)
    ensures PathResolves(catalog, Components(path), matched)
  {
    hide Components, ComponentResolves, UnitOf;
    var rest := path;
    ghost var done: seq<string> := [];
    matched := None;
    while rest != ""
      invariant matched.None? && Components(path) == done + Components(rest)
      invariant forall k :: 0 <= k < |done| ==> ComponentResolves(catalog, done[k], None)
      decreases |rest|
    {
      hide IndexOf;
      ComponentsUnfold(rest);
      var n := IndexOf(rest, '/');
      var component := rest[..n];
      rest := if n < |rest| then rest[n + 1..] else "";
      if component != "" {
        matched := LookupComponent(catalog, component);
        FirstComponentFound(catalog, done, component, Components(rest), matched);
        if matched.Some? {
          return;
        }
        assert done + ([component] + Components(rest)) == (done + [component]) + Components(rest);
        done := done + [component];
      } else {
        assert [] + Components(rest) == Components(rest);
      }
    }
    ComponentsUnfold("");
    assert Components(path) == done;
  }

  /** A path with a component that resolves to some entry resolves to some entry. */
  lemma {:induction false} FoundInPath(catalog: Catalog, components: seq<string>, k: nat, entry: Option<nat>)
    requires PathResolves(catalog, components, entry) && k < |components|
    requires forall r :: ComponentResolves(catalog, components[k], r) ==> r.Some?
    ensures entry.Some?
  {
    hide ComponentResolves;
    assert entry.None? ==> ComponentResolves(catalog, components[k], None);
  }

  // ----- Paths that are always found -----

  /** What launchers put behind the AppID: a template instance or nothing for a service, a random
      part for a scope. */
  predicate IsTail(tail: string, scope: bool) {
    if scope then tail != "" && tail[0] == '-' else tail == "" || tail[0] == '@'
  }

  /** The unit an installed application with a dotted AppID is started in. */
  predicate IsAppUnit(catalog: Catalog, component: string, prefix: string, id: string, tail: string, scope: bool) {
    && IsPrefix(prefix) && '.' in id && '@' !in prefix + id && Identify(catalog, id).Some?
    && IsTail(tail, scope) && |prefix + id + tail| < PATH_SIZE
    && component == UNIT_PREFIX + (prefix + id + tail) + if scope then SCOPE_SUFFIX else SERVICE_SUFFIX
  }

  /** Whatever such a unit resolves to is an entry, and that of the AppID when nothing stands
      before it in a service's name. */
  lemma {:induction false} AppUnitsAreFound(catalog: Catalog, component: string, prefix: string, id: string, tail: string,
                                            scope: bool, entry: Option<nat>)
    requires IsAppUnit(catalog, component, prefix, id, tail, scope) && ComponentResolves(catalog, component, entry)
    ensures entry.Some? && (!scope && prefix == "" ==> entry == Identify(catalog, id))
  {
    hide *;
    AppUnitMeans(catalog, component, prefix, id, tail, scope, entry);
    if scope {
      TailRegrouped(prefix + id, tail);
      ScopesAreFound(catalog, prefix, id, tail[1..], entry);
    } else {
      ServicesAreFound(catalog, prefix, id, tail, entry);
    }
  }

  lemma TailRegrouped(front: string, tail: string)
    requires tail != "" && tail[0] == '-'
    ensures front + "-" + tail[1..] == front + tail
  {
    assert tail == "-" + tail[1..];
  }

  lemma AppUnitMeans(catalog: Catalog, component: string, prefix: string, id: string, tail: string, scope: bool, entry: Option<nat>)
    requires IsAppUnit(catalog, component, prefix, id, tail, scope) && ComponentResolves(catalog, component, entry)
    ensures IsPrefix(prefix) && '.' in id && '@' !in prefix + id && Identify(catalog, id).Some?
    ensures |prefix + id + tail| < PATH_SIZE && (if scope then tail != "" && tail[0] == '-' else tail == "" || tail[0] == '@')
    ensures Resolves(catalog, Candidate(prefix + id + tail), scope, entry)
  {
    UnitNamesAreRead(prefix + id + tail);
    hide Resolves, Candidate, Identify, UnitOf, IsPrefix;
  }

  lemma {:induction false} ComponentResolvesOnce(catalog: Catalog, component: string, a: Option<nat>, b: Option<nat>)
    requires ComponentResolves(catalog, component, a) && ComponentResolves(catalog, component, b)
    ensures a == b
  {
    hide Resolves, UnitOf, Candidate;
    if UnitOf(component).Some? {
      var unit := UnitOf(component).value;
      ResolvesOnce(catalog, Candidate(unit.payload), unit.scope, a, b);
    }
  }

  /** A path through the unit of an installed application is resolved; when no component before the
      unit resolves and its name is a service's with nothing before the AppID, to that application. */
  lemma {:induction false} AppsAreFound(catalog: Catalog, path: string, k: nat, prefix: string, id: string, tail: string,
                                        scope: bool, entry: Option<nat>)
    requires k < |Components(path)| && IsAppUnit(catalog, Components(path)[k], prefix, id, tail, scope)
    requires PathResolves(catalog, Components(path), entry)
    ensures entry.Some?
    ensures !scope && prefix == "" && (forall j :: 0 <= j < k ==> ComponentResolves(catalog, Components(path)[j], None)) ==>
      entry == Identify(catalog, id)
  {
    hide ComponentResolves, IsAppUnit, Components, Identify;
    var components := Components(path);
    forall r | ComponentResolves(catalog, components[k], r)
      ensures r.Some? && (!scope && prefix == "" ==> r == Identify(catalog, id))
    {
      AppUnitsAreFound(catalog, components[k], prefix, id, tail, scope, r);
    }
    FoundInPath(catalog, components, k, entry);
    var at :| 0 <= at < |components| && ComponentResolves(catalog, components[at], entry) &&
      forall j :: 0 <= j < at ==> ComponentResolves(catalog, components[j], None);
    if at < k && forall j :: 0 <= j < k ==> ComponentResolves(catalog, components[j], None) {
      ComponentResolvesOnce(catalog, components[at], entry, None);
    }
  }
}
