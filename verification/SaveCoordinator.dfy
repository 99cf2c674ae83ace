/** The generation-ordered save protocol (src/history_persistence.c): any number of detached
    requests publish snapshots of the model to one file through one coordinator. Every atomic load,
    store, lock operation and file write is a step of its own, so requests interleave freely. */
module SaveCoordinator {
  import opened Basics
  import opened RecencyOrder

  datatype Phase =
    | Created
    | SawScheduled             // not older than what was scheduled when it looked
    | Preparing                // not already written when it looked
    | Prepared                 // serialised, waiting for the mutex
    | Holding                  // owns the mutex
    | Rechecking(latest: nat)  // has loaded the scheduled generation again
    | Cleared                  // may write
    | Published                // file replaced, generation not stored yet
    | Leaving(failed: bool, wrote: bool)
    | Finished(failed: bool, wrote: bool)

  datatype Request = Request(generation: nat, snapshot: Entries, phase: Phase)

  datatype Publication = Publication(generation: nat, snapshot: Entries)

  /** `references` and `freed` describe the coordinator's memory; `owned` is the model's own
      reference. `published` lists every replacement of the file since the coordinator exists. */
  datatype Coordinator = Coordinator(
    scheduled: nat, written: nat, holder: Option<nat>,
    requests: map<nat, Request>,
    original: Entries, published: seq<Publication>,
    references: nat, owned: bool, freed: bool)

  datatype Action =
    | NoteScheduled(generation: nat)
    | Create(id: nat, request: Request)
    | Advance(id: nat, ok: bool)  // the request's next step; `ok` when preparing or writing succeeds
    | Free(id: nat)
    | ReleaseOwner

  function Initial(file: Entries): Coordinator {
    Coordinator(0, 0, None, map[], file, [], 1, true, false)
  }

  /** The content of the file and the generation it was published with, 0 for the original. */
  function File(s: Coordinator): Entries {
    if s.published == [] then s.original else s.published[|s.published| - 1].snapshot
  }

  function FileGeneration(s: Coordinator): nat {
    if s.published == [] then 0 else s.published[|s.published| - 1].generation
  }

  predicate Enabled(s: Coordinator, a: Action) {
    match a
    case NoteScheduled(_) => s.owned
    case Create(id, request) => s.owned && id !in s.requests && request.phase == Created
    case Advance(id, _) =>
      id in s.requests && !s.requests[id].phase.Finished? && (s.requests[id].phase.Prepared? ==> s.holder.None?)
    case Free(id) => id in s.requests && s.requests[id].phase.Finished?
    case ReleaseOwner => s.owned
  }

  /** The atomic step of a request: two unlocked checks, preparation, the lock, the same two
      checks again, the write, the store of the generation, the unlock. */
  function NextPhase(s: Coordinator, r: Request, ok: bool): Phase {
    match r.phase
    case Created => if r.generation < s.scheduled then Finished(false, false) else SawScheduled
    case SawScheduled => if r.generation <= s.written then Finished(false, false) else Preparing
    case Preparing => if ok then Prepared else Finished(true, false)
    case Prepared => Holding
    case Holding => Rechecking(s.scheduled)
    case Rechecking(latest) =>
      if r.generation < latest || r.generation <= s.written then Leaving(false, false) else Cleared
    case Cleared => if ok then Published else Leaving(true, false)
    case Published => Leaving(false, true)
    case Leaving(failed, wrote) => Finished(failed, wrote)
    case Finished(_, _) => r.phase
  }

  function Advanced(s: Coordinator, id: nat, ok: bool): Coordinator
    requires id in s.requests
  {
    var r := s.requests[id];
    s.(requests := s.requests[id := r.(phase := NextPhase(s, r, ok))],
       holder := if r.phase.Prepared? then Some(id) else if r.phase.Leaving? then None else s.holder,
       published := if r.phase.Cleared? && ok then s.published + [Publication(r.generation, r.snapshot)] else s.published,
       written := if r.phase.Published? then r.generation else s.written)
  }

  function Released(s: Coordinator): Coordinator {
    s.(references := if s.references > 0 then s.references - 1 else 0, freed := s.references <= 1)
  }

  function Apply(s: Coordinator, a: Action): Coordinator
    requires Enabled(s, a)
  {
    match a
    case NoteScheduled(generation) => s.(scheduled := generation)
    case Create(id, request) => s.(requests := s.requests[id := request], references := s.references + 1)
    case Advance(id, ok) => Advanced(s, id, ok)
    case Free(id) => Released(s.(requests := s.requests - {id}))
    case ReleaseOwner => Released(s.(owned := false))
  }

  predicate InsideMutex(phase: Phase) {
    phase.Holding? || phase.Rechecking? || phase.Cleared? || phase.Published? || phase.Leaving?
  }

  ghost predicate RequestSound(s: Coordinator, id: nat, r: Request) {
    && (InsideMutex(r.phase) <==> s.holder == Some(id))
    && (r.phase.Cleared? ==> r.generation > s.written)
    && (r.phase.Published? ==> r.generation > s.written && FileGeneration(s) == r.generation)
    && (r.phase.Leaving? || r.phase.Finished? ==> r.phase.wrote ==> r.generation <= s.written)
  }

  ghost predicate StrictlyIncreasing(published: seq<Publication>) {
    forall i, j :: 0 <= i < j < |published| ==> published[i].generation < published[j].generation
  }

  ghost predicate RequestsSound(s: Coordinator) {
    forall id :: id in s.requests ==> RequestSound(s, id, s.requests[id])
  }

  ghost predicate FileSound(s: Coordinator) {
    && StrictlyIncreasing(s.published)
    && s.written <= FileGeneration(s)
    && (s.holder.Some? ==> s.holder.value in s.requests)
    && ((s.holder.None? || !s.requests[s.holder.value].phase.Published?) ==> s.written == FileGeneration(s))
  }

  ghost predicate ReferencesSound(s: Coordinator) {
    && s.references == |s.requests| + (if s.owned then 1 else 0)
    && (s.freed <==> s.references == 0)
  }

  /** The inductive invariant of the protocol. */
  ghost predicate Sound(s: Coordinator) {
    RequestsSound(s) && FileSound(s) && ReferencesSound(s)
  }

  lemma InitialIsSound(file: Entries)
    ensures Sound(Initial(file))
  {
  }

  lemma AdvanceKeepsRequests(s: Coordinator, id: nat, ok: bool)
    requires RequestsSound(s) && FileSound(s) && Enabled(s, Advance(id, ok))
    ensures RequestsSound(Advanced(s, id, ok))
  {
    hide StrictlyIncreasing;
    var s' := Advanced(s, id, ok);
    assert RequestSound(s, id, s.requests[id]);
    forall j | j in s'.requests ensures RequestSound(s', j, s'.requests[j]) {
      assert RequestSound(s, j, s.requests[j]);
    }
  }

  lemma StepKeepsRequests(s: Coordinator, a: Action)
    requires RequestsSound(s) && FileSound(s) && Enabled(s, a)
    ensures RequestsSound(Apply(s, a))
  {
    if a.Advance? {
      AdvanceKeepsRequests(s, a.id, a.ok);
    } else {
      hide StrictlyIncreasing, Advanced;
      var s' := Apply(s, a);
      assert a.Free? ==> RequestSound(s, a.id, s.requests[a.id]);
      forall j | j in s'.requests ensures RequestSound(s', j, s'.requests[j]) {
        assert j in s.requests ==> RequestSound(s, j, s.requests[j]);
      }
    }
  }

  lemma AdvanceKeepsFile(s: Coordinator, id: nat, ok: bool)
    requires FileSound(s) && Enabled(s, Advance(id, ok)) && RequestSound(s, id, s.requests[id])
    requires s.holder.Some? ==> InsideMutex(s.requests[s.holder.value].phase)
    ensures FileSound(Advanced(s, id, ok))
  {
    if s.requests[id].phase.Cleared? {
      PublishKeepsOrder(s.published, Publication(s.requests[id].generation, s.requests[id].snapshot));
    }
    hide StrictlyIncreasing;
  }

  lemma StepKeepsFile(s: Coordinator, a: Action)
    requires RequestsSound(s) && FileSound(s) && Enabled(s, a)
    ensures FileSound(Apply(s, a))
  {
    if s.holder.Some? {
      assert RequestSound(s, s.holder.value, s.requests[s.holder.value]);
    }
    if a.Advance? {
      assert RequestSound(s, a.id, s.requests[a.id]);
      hide Advanced, FileSound;
      AdvanceKeepsFile(s, a.id, a.ok);
    } else {
      hide Advanced, StrictlyIncreasing;
    }
  }

  lemma PublishKeepsOrder(published: seq<Publication>, p: Publication)
    requires StrictlyIncreasing(published)
    requires published != [] ==> published[|published| - 1].generation < p.generation
    ensures StrictlyIncreasing(published + [p])
  {
  }

  lemma RequestCount(requests: map<nat, Request>, id: nat, r: Request)
    ensures id in requests ==> |requests - {id}| == |requests| - 1
    ensures id !in requests ==> |requests[id := r]| == |requests| + 1
  {
    if id in requests {
      assert requests.Keys == (requests - {id}).Keys + {id};
    } else {
      assert requests[id := r].Keys == requests.Keys + {id};
    }
  }

  lemma MovesCount(s: Coordinator, a: Action)
    requires Enabled(s, a) && !a.Create? && !a.Free?
    ensures |Apply(s, a).requests| == |s.requests|
  {
    assert Apply(s, a).requests.Keys == s.requests.Keys;
  }

  lemma StepKeepsReferences(s: Coordinator, a: Action)
    requires ReferencesSound(s) && Enabled(s, a)
    ensures ReferencesSound(Apply(s, a))
  {
    if a.Create? {
      RequestCount(s.requests, a.id, a.request);
    } else if a.Free? {
      RequestCount(s.requests, a.id, s.requests[a.id]);
    } else {
      MovesCount(s, a);
    }
  }

  lemma StepIsSound(s: Coordinator, a: Action)
    requires Sound(s) && Enabled(s, a)
    ensures Sound(Apply(s, a))
  {
    hide RequestsSound, FileSound, ReferencesSound;
    StepKeepsRequests(s, a);
    StepKeepsFile(s, a);
    StepKeepsReferences(s, a);
  }

  ghost predicate IsExecution(states: seq<Coordinator>, actions: seq<Action>) {
    && |states| == |actions| + 1
    && forall i :: 0 <= i < |actions| ==> Enabled(states[i], actions[i]) && states[i + 1] == Apply(states[i], actions[i])
  }

  lemma {:induction false} ExecutionIsSound(states: seq<Coordinator>, actions: seq<Action>, i: nat)
    requires IsExecution(states, actions) && i < |states|
    requires Sound(states[0])
    ensures Sound(states[i])
  {
    if i > 0 {
      ExecutionIsSound(states, actions, i - 1);
      StepIsSound(states[i - 1], actions[i - 1]);
    }
  }

  /** In every interleaving of any number of requests, published generations strictly increase,
      and whenever the mutex is free the recorded generation is that of the file on disk, also
      when writes failed or were skipped. */
  lemma {:induction false} PublicationsAreOrdered(file: Entries, states: seq<Coordinator>, actions: seq<Action>, i: nat)
    requires IsExecution(states, actions) && states[0] == Initial(file) && i < |states|
    ensures StrictlyIncreasing(states[i].published)
    ensures states[i].holder.None? ==> states[i].written == FileGeneration(states[i])
    ensures states[i].written <= FileGeneration(states[i])
  {
    InitialIsSound(file);
    ExecutionIsSound(states, actions, i);
  }

  /** At most one request is between taking and releasing the mutex. */
  lemma {:induction false} MutexExcludes(file: Entries, states: seq<Coordinator>, actions: seq<Action>, i: nat, a: nat, b: nat)
    requires IsExecution(states, actions) && states[0] == Initial(file) && i < |states|
    requires a in states[i].requests && InsideMutex(states[i].requests[a].phase)
    requires b in states[i].requests && InsideMutex(states[i].requests[b].phase)
    ensures a == b
  {
    InitialIsSound(file);
    ExecutionIsSound(states, actions, i);
  }

  /** The coordinator is freed exactly when its owner and every request have let go of it, and no
      step is ever taken on a freed coordinator. */
  lemma {:induction false} FreedOnceAndLast(file: Entries, states: seq<Coordinator>, actions: seq<Action>, i: nat)
    requires IsExecution(states, actions) && states[0] == Initial(file) && i < |states|
    ensures states[i].freed <==> !states[i].owned && states[i].requests == map[]
    ensures i < |actions| ==> !states[i].freed
  {
    InitialIsSound(file);
    ExecutionIsSound(states, actions, i);
  }

  /** The file changes in one way only: a request that is neither older than what it saw scheduled
      nor already covered by the recorded generation replaces it with its own snapshot. */
  lemma FileChangesOnlyForward(s: Coordinator, a: Action)
    requires Sound(s) && Enabled(s, a)
    ensures FileGeneration(s) <= FileGeneration(Apply(s, a))
    ensures Apply(s, a).published != s.published ==>
      && a.Advance? && File(Apply(s, a)) == s.requests[a.id].snapshot
      && FileGeneration(s) < s.requests[a.id].generation == FileGeneration(Apply(s, a))
  {
    if a.Advance? {
      assert RequestSound(s, a.id, s.requests[a.id]);
    }
  }

  // ----- One request running undisturbed -----

  /** No other request is inside the mutex. */
  ghost predicate Alone(s: Coordinator, id: nat) {
    Sound(s) && id in s.requests && (s.holder.None? || s.holder == Some(id))
  }

  ghost function StepsLeft(phase: Phase): nat {
    match phase
    case Created => 9 case SawScheduled => 8 case Preparing => 7 case Prepared => 6 case Holding => 5
    case Rechecking(_) => 4 case Cleared => 3 case Published => 2 case Leaving(_, _) => 1 case Finished(_, _) => 0
  }

  lemma HolderIsInside(s: Coordinator, id: nat)
    requires Sound(s) && id in s.requests
    ensures InsideMutex(s.requests[id].phase) <==> s.holder == Some(id)
  {
    assert RequestSound(s, id, s.requests[id]);
  }

  lemma AloneStays(s: Coordinator, id: nat, ok: bool)
    requires Alone(s, id) && !s.requests[id].phase.Finished?
    ensures Enabled(s, Advance(id, ok)) && Alone(Advanced(s, id, ok), id)
    ensures StepsLeft(Advanced(s, id, ok).requests[id].phase) < StepsLeft(s.requests[id].phase)
  {
    hide Sound;
    HolderIsInside(s, id);
    StepIsSound(s, Advance(id, ok));
  }

  /** The request runs to its end without interference; `prepared` and `replaced` say whether its
      preparation and its file write succeed. */
  ghost function RunAlone(s: Coordinator, id: nat, prepared: bool, replaced: bool): Coordinator
    requires Alone(s, id)
    decreases StepsLeft(s.requests[id].phase)
  {
    if s.requests[id].phase.Finished? then s
    else
      var ok := if s.requests[id].phase.Preparing? then prepared else replaced;
      AloneStays(s, id, ok);
      RunAlone(Advanced(s, id, ok), id, prepared, replaced)
  }

  ghost predicate Outdated(s: Coordinator, r: Request) {
    r.generation < s.scheduled || r.generation <= s.written
  }

  /** How an undisturbed request ends, from any of its phases. */
  ghost function Verdict(s: Coordinator, r: Request, prepared: bool, replaced: bool): Phase {
    var skipped, tried := Finished(false, false), Finished(!replaced, replaced);
    match r.phase
    case Created => if Outdated(s, r) then skipped else if prepared then tried else Finished(true, false)
    case SawScheduled =>
      if r.generation <= s.written then skipped
      else if !prepared then Finished(true, false)
      else if r.generation < s.scheduled then skipped else tried
    case Preparing => if !prepared then Finished(true, false) else if Outdated(s, r) then skipped else tried
    case Prepared => if Outdated(s, r) then skipped else tried
    case Holding => if Outdated(s, r) then skipped else tried
    case Rechecking(latest) => if r.generation < latest || r.generation <= s.written then skipped else tried
    case Cleared => tried
    case Published => Finished(false, true)
    case Leaving(failed, wrote) => Finished(failed, wrote)
    case Finished(_, _) => r.phase
  }

  /** State `e` is where the undisturbed request leads from `s`: it has replaced the file with its
      own snapshot and recorded its generation, or left both alone. */
  ghost predicate EndsIn(s: Coordinator, id: nat, prepared: bool, replaced: bool, e: Coordinator)
    requires id in s.requests
  {
    var r := s.requests[id];
    var phase := Verdict(s, r, prepared, replaced);
    var writes := phase.wrote && !r.phase.Finished? && !r.phase.Leaving?;
    && e.requests == s.requests[id := r.(phase := phase)]
    && e.scheduled == s.scheduled && e.original == s.original && e.owned == s.owned
    && e.references == s.references && e.freed == s.freed && e.holder == (if r.phase.Finished? then s.holder else None)
    && e.published == s.published + (if writes && !r.phase.Published? then [Publication(r.generation, r.snapshot)] else [])
    && e.written == if writes then r.generation else s.written
  }

  lemma AdvanceEnds(s: Coordinator, id: nat, prepared: bool, replaced: bool, e: Coordinator)
    requires id in s.requests && !s.requests[id].phase.Finished?
    requires InsideMutex(s.requests[id].phase) || s.holder.None?
    requires EndsIn(Advanced(s, id, if s.requests[id].phase.Preparing? then prepared else replaced), id, prepared, replaced, e)
    ensures EndsIn(s, id, prepared, replaced, e)
  {
  }

  /** An undisturbed request ends with its verdict. */
  lemma {:induction false} RunAloneEnds(s: Coordinator, id: nat, prepared: bool, replaced: bool)
    requires Alone(s, id)
    ensures Sound(RunAlone(s, id, prepared, replaced))
    ensures EndsIn(s, id, prepared, replaced, RunAlone(s, id, prepared, replaced))
    decreases StepsLeft(s.requests[id].phase)
  {
    if !s.requests[id].phase.Finished? {
      hide Sound, EndsIn;
      var ok := if s.requests[id].phase.Preparing? then prepared else replaced;
      HolderIsInside(s, id);
      AloneStays(s, id, ok);
      RunAloneEnds(Advanced(s, id, ok), id, prepared, replaced);
      AdvanceEnds(s, id, prepared, replaced, RunAlone(s, id, prepared, replaced));
    }
  }
}
