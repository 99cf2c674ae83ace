/** The hand-off between the sampler thread and the user-interface thread
    (src/monitor_backend_linux.c). The worker writes the snapshot buffer without holding the
    mutex; three flags keep the other thread away from it. Each section under the mutex, each
    release of a reference and each stretch of unlocked sampling is one step. */
module SamplerHandoff {
  import opened Basics

  datatype Worker =
    | NotStarted
    | Initialising            // first discovery, writes the buffer
    | Waiting
    | Sampling(forced: bool)  // sample_once, writes the buffer
    | Leaving                 // has seen the stop request
    | Gone

  datatype Owner = Starting | Running | Stopping | Released

  /** `buffer` is the last sample written whole; `published` lists the samples copied to the public
      monitor. */
  datatype Sampler = Sampler(
    requestPending: bool, sampleInProgress: bool, sampleReady: bool, stopRequested: bool,
    topologyRequested: bool,
    references: nat, freed: bool,
    worker: Worker, owner: Owner,
    buffer: nat, published: seq<nat>)

  datatype Action =
    | Spawn(ok: bool)
    | Update
    | RequestTopology
    | SignalStop
    | ReleaseOwner
    | FinishInitialising(complete: bool)
    | TakeRequest
    | FinishSample(sample: Option<nat>)  // None when the clock had not advanced
    | SeeStop
    | ReleaseWorker

  function Initial(): Sampler {
    Sampler(true, false, false, false, false, 1, false, NotStarted, Starting, 0, [])
  }

  /** The worker is writing the buffer outside the mutex. */
  predicate Writing(s: Sampler) {
    s.worker.Initialising? || s.worker.Sampling?
  }

  /** The update step copies the buffer. */
  predicate Copies(s: Sampler, a: Action) {
    a.Update? && s.sampleReady
  }

  predicate Enabled(s: Sampler, a: Action) {
    match a
    case Spawn(_) => s.owner.Starting?
    case Update => s.owner.Running?
    case RequestTopology => s.owner.Running?
    case SignalStop => s.owner.Running?
    case ReleaseOwner => s.owner.Stopping?
    case FinishInitialising(_) => s.worker.Initialising?
    case TakeRequest => s.worker.Waiting? && s.requestPending && !s.stopRequested
    case FinishSample(_) => s.worker.Sampling?
    case SeeStop => s.worker.Waiting? && s.stopRequested
    case ReleaseWorker => s.worker.Leaving?
  }

  function Dropped(s: Sampler): Sampler {
    s.(references := if s.references > 0 then s.references - 1 else 0, freed := s.references <= 1)
  }

  function Apply(s: Sampler, a: Action): Sampler
    requires Enabled(s, a)
  {
    match a
    case Spawn(ok) =>
      // The reference taken for the worker is dropped again when there is no worker.
      if ok then s.(references := s.references + 1, worker := Initialising, owner := Running)
      else s.(owner := Stopping)
    case Update =>
      s.(published := if s.sampleReady then s.published + [s.buffer] else s.published,
         sampleReady := false,
         requestPending := s.requestPending || !s.sampleInProgress)
    case RequestTopology =>
      s.(topologyRequested := true,
         requestPending := s.requestPending || (!s.sampleReady && !s.sampleInProgress))
    case SignalStop => s.(stopRequested := true, owner := Stopping)
    case ReleaseOwner => Dropped(s.(owner := Released))
    case FinishInitialising(complete) =>
      s.(worker := Waiting, topologyRequested := s.topologyRequested || !complete)
    case TakeRequest =>
      s.(worker := Sampling(s.topologyRequested), topologyRequested := false,
         requestPending := false, sampleInProgress := true)
    case FinishSample(sample) =>
      var accepted := sample.Some? && !s.stopRequested;
      s.(worker := Waiting, sampleInProgress := false, sampleReady := s.sampleReady || accepted,
         buffer := if sample.Some? then sample.value else s.buffer)
    case SeeStop => s.(worker := Leaving)
    case ReleaseWorker => Dropped(s.(worker := Gone))
  }

  // ----- The invariant -----

  ghost predicate FlagsSound(s: Sampler) {
    && (s.sampleInProgress <==> s.worker.Sampling?)
    && !(s.requestPending && s.sampleInProgress)
    && !(s.requestPending && s.sampleReady)
    && !(s.sampleInProgress && s.sampleReady)
    && (s.worker.NotStarted? || s.worker.Initialising? ==> s.requestPending)
    && (s.stopRequested ==> !s.owner.Running?)
    && (s.owner.Running? || s.stopRequested ==> !s.worker.NotStarted?)
  }

  ghost predicate LifetimeSound(s: Sampler) {
    && s.references == (if s.owner.Released? then 0 else 1) + (if s.worker.NotStarted? || s.worker.Gone? then 0 else 1)
    && (s.freed <==> s.references == 0)
    && (s.owner.Starting? ==> s.worker.NotStarted?)
    && (s.worker.Leaving? || s.worker.Gone? ==> s.stopRequested)
  }

  ghost predicate Sound(s: Sampler) {
    FlagsSound(s) && LifetimeSound(s)
  }

  lemma StepIsSound(s: Sampler, a: Action)
    requires Sound(s) && Enabled(s, a)
    ensures Sound(Apply(s, a))
  {
  }

  ghost predicate IsExecution(states: seq<Sampler>, actions: seq<Action>) {
    && |states| == |actions| + 1 && states[0] == Initial()
    && forall i :: 0 <= i < |actions| ==> Enabled(states[i], actions[i]) && states[i + 1] == Apply(states[i], actions[i])
  }

  lemma ExecutionStart(states: seq<Sampler>, actions: seq<Action>)
    requires IsExecution(states, actions)
    ensures |states| == |actions| + 1 && states[0] == Initial()
  {
  }

  lemma ExecutionStep(states: seq<Sampler>, actions: seq<Action>, i: nat)
    requires IsExecution(states, actions) && i < |actions|
    ensures |states| == |actions| + 1 && Enabled(states[i], actions[i]) && states[i + 1] == Apply(states[i], actions[i])
  {
    hide Enabled, Apply;
  }

  lemma {:induction false} ExecutionIsSound(states: seq<Sampler>, actions: seq<Action>, i: nat)
    requires IsExecution(states, actions) && i < |states|
    ensures Sound(states[i])
  {
    if i > 0 {
      ExecutionIsSound(states, actions, i - 1);
      StepIsSound(states[i - 1], actions[i - 1]);
    }
  }

  /** In every interleaving at most one of the three flags holds, and the user-interface thread
      never copies the buffer while the worker writes it. */
  lemma {:induction false} BufferIsNeverShared(states: seq<Sampler>, actions: seq<Action>, i: nat)
    requires IsExecution(states, actions) && i < |states|
    ensures !(states[i].requestPending && states[i].sampleInProgress)
    ensures !(states[i].requestPending && states[i].sampleReady)
    ensures !(states[i].sampleInProgress && states[i].sampleReady)
    ensures i < |actions| && Copies(states[i], actions[i]) ==> !Writing(states[i])
  {
    ExecutionIsSound(states, actions, i);
  }

  // ----- What happened, from the actions alone -----

  /** Stop was requested by one of the first n actions. */
  ghost predicate Stopped(actions: seq<Action>, n: nat) {
    exists k :: 0 <= k < n && k < |actions| && actions[k].SignalStop?
  }

  /** Action i finishes a sample that counts: the clock had advanced and stop was not requested. */
  ghost predicate IsSample(actions: seq<Action>, i: nat) {
    i < |actions| && actions[i].FinishSample? && actions[i].sample.Some? && !Stopped(actions, i)
  }

  /** The samples that the first n actions finished, in order. */
  ghost function Samples(actions: seq<Action>, n: nat): seq<nat>
    requires n <= |actions|
  {
    if n == 0 then [] else Samples(actions, n - 1) + if IsSample(actions, n - 1) then [actions[n - 1].sample.value] else []
  }

  lemma {:induction false} StoppedOneMore(actions: seq<Action>, n: nat)
    requires n < |actions|
    ensures Stopped(actions, n + 1) <==> Stopped(actions, n) || actions[n].SignalStop?
  {
    if Stopped(actions, n) {
      var k :| 0 <= k < n && actions[k].SignalStop?;
      assert 0 <= k < n + 1;
    }
    if actions[n].SignalStop? {
      assert 0 <= n < n + 1;
    }
  }

  lemma {:induction false} StopIsRemembered(states: seq<Sampler>, actions: seq<Action>, i: nat)
    requires IsExecution(states, actions) && i < |states|
    ensures states[i].stopRequested <==> Stopped(actions, i)
  {
    hide *;
    ExecutionStart(states, actions);
    if i == 0 {
      NothingStopped(actions);
    } else {
      StopIsRemembered(states, actions, i - 1);
      ExecutionStep(states, actions, i - 1);
      StopStep(states[i - 1], actions[i - 1]);
      StoppedOneMore(actions, i - 1);
    }
  }

  lemma NothingStopped(actions: seq<Action>)
    ensures !Stopped(actions, 0) && !Initial().stopRequested
  {
  }

  lemma StopStep(s: Sampler, a: Action)
    requires Enabled(s, a)
    ensures Apply(s, a).stopRequested <==> s.stopRequested || a.SignalStop?
  {
  }

  /** What waits in the buffer to be published. */
  function Unread(s: Sampler): seq<nat> {
    if s.sampleReady then [s.buffer] else []
  }

  lemma UnreadNext(s: Sampler, a: Action)
    requires Sound(s) && Enabled(s, a)
    ensures var t := Apply(s, a);
      t.published + Unread(t) ==
      s.published + Unread(s) + if a.FinishSample? && a.sample.Some? && !s.stopRequested then [a.sample.value] else []
  {
    assert s.published + [] == s.published && s.published + Unread(s) + [] == s.published + Unread(s);
  }

  /** Every sample finished before the stop request is published exactly once and in order: what is
      published, with the one that may be waiting, is exactly what was finished; an update leaves
      none waiting. */
  lemma {:induction false} SamplesArePublishedInOrder(states: seq<Sampler>, actions: seq<Action>, i: nat)
    requires IsExecution(states, actions) && i < |states|
    ensures states[i].published + (if states[i].sampleReady then [states[i].buffer] else []) == Samples(actions, i)
    ensures i < |actions| && actions[i].Update? ==> states[i + 1].published == Samples(actions, i)
  {
    if i > 0 {
      SamplesArePublishedInOrder(states, actions, i - 1);
      ExecutionIsSound(states, actions, i - 1);
      StopIsRemembered(states, actions, i - 1);
      UnreadNext(states[i - 1], actions[i - 1]);
      hide Stopped, Sound;
    }
  }

  lemma {:induction false} SamplesGrow(actions: seq<Action>, i: nat, j: nat)
    requires i <= j <= |actions|
    ensures Samples(actions, i) <= Samples(actions, j)
  {
    if i < j {
      SamplesGrow(actions, i, j - 1);
    }
  }

  /** A finished sample is published by the first update after it, and so by any. */
  lemma {:induction false} UpdatePublishesSample(states: seq<Sampler>, actions: seq<Action>, i: nat, j: nat)
    requires IsExecution(states, actions) && i < j < |actions|
    requires IsSample(actions, i) && actions[j].Update?
    ensures var n := |Samples(actions, i)|;
      n < |states[j + 1].published| && states[j + 1].published[n] == actions[i].sample.value
  {
    SamplesArePublishedInOrder(states, actions, j);
    SamplesGrow(actions, i + 1, j);
    hide Stopped;
  }

  /** After an update the worker has exactly one thing to do, and nothing waits to be published. */
  lemma {:induction false} UpdateKeepsTheWorkerBusy(states: seq<Sampler>, actions: seq<Action>, i: nat)
    requires IsExecution(states, actions) && i < |actions| && actions[i].Update?
    ensures states[i + 1].requestPending != states[i + 1].sampleInProgress && !states[i + 1].sampleReady
  {
    ExecutionIsSound(states, actions, i);
  }

  /** The sampler and its backend are freed exactly when both holders have let go, and no step is
      ever taken on freed memory: every enabled step's own thread still holds its reference. */
  lemma {:induction false} FreedOnceAndLast(states: seq<Sampler>, actions: seq<Action>, i: nat)
    requires IsExecution(states, actions) && i < |states|
    ensures states[i].freed <==> states[i].owner.Released? && (states[i].worker.NotStarted? || states[i].worker.Gone?)
    ensures i < |actions| ==> !states[i].freed
  {
    ExecutionIsSound(states, actions, i);
  }

  /** The action asks for a scan of the topology: a request, or a first discovery that was not
      complete. */
  predicate AsksForTopology(a: Action) {
    a.RequestTopology? || a == FinishInitialising(false)
  }

  /** Topology was asked for since the last sample was started. */
  ghost predicate IsAsked(actions: seq<Action>, n: nat) {
    n <= |actions| && n > 0 && (AsksForTopology(actions[n - 1]) || (!actions[n - 1].TakeRequest? && IsAsked(actions, n - 1)))
  }

  lemma {:induction false} AskedIsRemembered(states: seq<Sampler>, actions: seq<Action>, i: nat)
    requires IsExecution(states, actions) && i < |states|
    ensures states[i].topologyRequested <==> IsAsked(actions, i)
  {
    hide *;
    ExecutionStart(states, actions);
    if i == 0 {
      NothingAsked(actions);
    } else {
      AskedIsRemembered(states, actions, i - 1);
      ExecutionStep(states, actions, i - 1);
      AskStep(states[i - 1], actions[i - 1]);
      AskedOneMore(actions, i);
    }
  }

  lemma NothingAsked(actions: seq<Action>)
    ensures !IsAsked(actions, 0) && !Initial().topologyRequested
  {
  }

  lemma AskedOneMore(actions: seq<Action>, n: nat)
    requires 0 < n <= |actions|
    ensures IsAsked(actions, n) <==> AsksForTopology(actions[n - 1]) || (!actions[n - 1].TakeRequest? && IsAsked(actions, n - 1))
  {
    hide AsksForTopology;
  }

  lemma AskStep(s: Sampler, a: Action)
    requires Enabled(s, a)
    ensures Apply(s, a).topologyRequested <==> AsksForTopology(a) || (!a.TakeRequest? && s.topologyRequested)
  {
  }

  lemma {:induction false} AskedSurvives(actions: seq<Action>, i: nat, j: nat)
    requires i < j <= |actions| && AsksForTopology(actions[i])
    requires forall k :: i < k < j ==> !actions[k].TakeRequest?
    ensures IsAsked(actions, j)
  {
    if i + 1 < j {
      AskedSurvives(actions, i, j - 1);
    }
  }

  /** A topology request made at any moment is carried by the next sample to start, and a sample
      carries one only if it was made since the sample before. */
  lemma {:induction false} RequestIsCarried(states: seq<Sampler>, actions: seq<Action>, i: nat, j: nat)
    requires IsExecution(states, actions) && j < |actions| && actions[j].TakeRequest?
    ensures states[j + 1].worker == Sampling(IsAsked(actions, j))
    ensures i < j && AsksForTopology(actions[i]) && (forall k :: i < k < j ==> !actions[k].TakeRequest?) ==>
      states[j + 1].worker == Sampling(true)
  {
    AskedIsRemembered(states, actions, j);
    if i < j && AsksForTopology(actions[i]) && forall k :: i < k < j ==> !actions[k].TakeRequest? {
      AskedSurvives(actions, i, j);
    }
  }

  /** What an action makes of the worker; `asked` says whether a topology is to be scanned. */
  function WorkerMove(worker: Worker, asked: bool, a: Action): Worker {
    match a
    case Spawn(created) => if created then Initialising else worker
    case FinishInitialising(_) => Waiting
    case TakeRequest => Sampling(asked)
    case FinishSample(_) => Waiting
    case SeeStop => Leaving
    case ReleaseWorker => Gone
    case _ => worker
  }

  /** What an action makes of the owner. */
  function OwnerMove(owner: Owner, a: Action): Owner {
    match a
    case Spawn(created) => if created then Running else Stopping
    case SignalStop => Stopping
    case ReleaseOwner => Released
    case _ => owner
  }

  ghost function WorkerAfter(actions: seq<Action>, n: nat): Worker
    requires n <= |actions|
  {
    if n == 0 then NotStarted else WorkerMove(WorkerAfter(actions, n - 1), IsAsked(actions, n - 1), actions[n - 1])
  }

  ghost function OwnerAfter(actions: seq<Action>, n: nat): Owner
    requires n <= |actions|
  {
    if n == 0 then Starting else OwnerMove(OwnerAfter(actions, n - 1), actions[n - 1])
  }

  lemma OwnThreadMoves(s: Sampler, a: Action)
    requires Enabled(s, a) && (a.FinishInitialising? || a.TakeRequest? || a.FinishSample? || a.SeeStop? || a.ReleaseWorker?)
    ensures Apply(s, a).worker == WorkerMove(s.worker, s.topologyRequested, a)
    ensures Apply(s, a).owner == s.owner
  {
    hide Dropped;
    DroppedKeeps(s.(worker := Gone));
  }

  lemma OtherThreadMoves(s: Sampler, a: Action)
    requires Enabled(s, a) && (a.Spawn? || a.SignalStop? || a.ReleaseOwner? || a.Update? || a.RequestTopology?)
    ensures Apply(s, a).owner == OwnerMove(s.owner, a)
    ensures Apply(s, a).worker == if a == Spawn(true) then Initialising else s.worker
  {
    hide Dropped;
    DroppedKeeps(s.(owner := Released));
  }

  lemma MovesOfOthers(worker: Worker, owner: Owner, asked: bool, a: Action)
    ensures a.FinishInitialising? || a.TakeRequest? || a.FinishSample? || a.SeeStop? || a.ReleaseWorker? ==> OwnerMove(owner, a) == owner
    ensures a.Spawn? || a.SignalStop? || a.ReleaseOwner? || a.Update? || a.RequestTopology? ==>
      WorkerMove(worker, asked, a) == if a == Spawn(true) then Initialising else worker
  {
  }

  lemma ThreadsMove(s: Sampler, a: Action)
    requires Enabled(s, a)
    ensures Apply(s, a).worker == WorkerMove(s.worker, s.topologyRequested, a) && Apply(s, a).owner == OwnerMove(s.owner, a)
  {
    hide *;
    MovesOfOthers(s.worker, s.owner, s.topologyRequested, a);
    if a.FinishInitialising? || a.TakeRequest? || a.FinishSample? || a.SeeStop? || a.ReleaseWorker? {
      OwnThreadMoves(s, a);
    } else {
      OtherThreadMoves(s, a);
    }
  }

  lemma DroppedKeeps(s: Sampler)
    ensures Dropped(s).owner == s.owner && Dropped(s).worker == s.worker
  {
  }

  lemma NothingDone(actions: seq<Action>)
    ensures WorkerAfter(actions, 0) == Initial().worker && OwnerAfter(actions, 0) == Initial().owner
  {
  }

  lemma PhasesUnfold(actions: seq<Action>, n: nat)
    requires 0 < n <= |actions|
    ensures WorkerAfter(actions, n) == WorkerMove(WorkerAfter(actions, n - 1), IsAsked(actions, n - 1), actions[n - 1])
    ensures OwnerAfter(actions, n) == OwnerMove(OwnerAfter(actions, n - 1), actions[n - 1])
  {
    hide IsAsked, WorkerMove, OwnerMove;
  }

  /** In every execution both threads are where their own last action left them. */
  lemma {:induction false} PhasesFollowActions(states: seq<Sampler>, actions: seq<Action>, i: nat)
    requires IsExecution(states, actions) && i <= |actions|
    ensures i < |states| && states[i].worker == WorkerAfter(actions, i) && states[i].owner == OwnerAfter(actions, i)
  {
    hide *;
    ExecutionStart(states, actions);
    if i == 0 {
      NothingDone(actions);
    } else {
      PhasesFollowActions(states, actions, i - 1);
      ExecutionStep(states, actions, i - 1);
      AskedIsRemembered(states, actions, i - 1);
      ThreadsMove(states[i - 1], actions[i - 1]);
      PhasesUnfold(actions, i);
    }
  }

  function WorkLeft(worker: Worker): nat {
    match worker
    case NotStarted => 0 case Initialising => 3 case Sampling(_) => 3 case Waiting => 2 case Leaving => 1 case Gone => 0
  }

  /** Once stop was requested the worker is never held up: until it is gone it has a step to take,
      and each of its steps but the start of a sample brings it nearer to its end. */
  lemma {:induction false} StoppedWorkerEnds(s: Sampler, result: Option<nat>, complete: bool)
    requires Sound(s) && s.stopRequested && !s.worker.NotStarted? && !s.worker.Gone?
    ensures !Enabled(s, TakeRequest)
    ensures var a := match s.worker
              case Initialising => FinishInitialising(complete)
              case Sampling(_) => FinishSample(result)
              case Waiting => SeeStop
              case _ => ReleaseWorker;
      Enabled(s, a) && WorkLeft(Apply(s, a).worker) < WorkLeft(s.worker) && Apply(s, a).stopRequested
  {
  }

  /** A topology request wakes an idle worker, and leaves alone a sample that waits to be published. */
  lemma {:induction false} RequestWakesTheWorker(states: seq<Sampler>, actions: seq<Action>, i: nat)
    requires IsExecution(states, actions) && i < |actions| && actions[i].RequestTopology?
    ensures var s, t := states[i], states[i + 1];
      && t.sampleReady == s.sampleReady && t.buffer == s.buffer && t.published == s.published
      && (t.requestPending || t.sampleInProgress || t.sampleReady)
  {
  }

  /** The sampler object: its fields, and the state of the protocol they belong to. */
  class SamplerState {
    var requestPending: bool
    var sampleInProgress: bool
    var sampleReady: bool
    var stopRequested: bool
    var topologyRequested: bool
    var references: nat
    var sample: nat
    ghost var state: Sampler

    ghost predicate Valid()
      reads this
    {
      && Sound(state)
      && requestPending == state.requestPending && sampleInProgress == state.sampleInProgress
      && sampleReady == state.sampleReady && stopRequested == state.stopRequested
      && topologyRequested == state.topologyRequested && references == state.references
      && sample == state.buffer
    }

    constructor ()
      ensures Valid() && state == Initial()
    {
      requestPending, sampleInProgress, sampleReady := true, false, false;
      stopRequested, topologyRequested, references, sample := false, false, 1, 0;
      state := Initial();
    }

    /** Starts the worker, or gives its reference back when no thread can be created. */
    method StartWorker(created: bool)
      requires Valid() && state.owner.Starting?
      modifies this
      ensures Valid() && state == Apply(old(state), Spawn(created))
    {
      ghost var before := state;
      StepIsSound(state, Spawn(created));
      state := Apply(state, Spawn(created));
      references := references + 1;
      if !created {
        var last := Release();
      }
    }

    /** Drops one reference; true when the caller has to free the memory. */
    method Release() returns (last: bool)
      modifies this`references
      ensures references == if old(references) > 0 then old(references) - 1 else 0
      ensures last <==> old(references) == 1
    {
      last := references == 1;
      references := if references > 0 then references - 1 else 0;
    }

    /** The locked section of an update: publishes a waiting sample, then asks for another. */
    method UpdateMonitor(monitor: nat) returns (shown: nat)
      requires Valid() && state.owner.Running?
      modifies this
      ensures Valid() && state == Apply(old(state), Update)
      ensures shown == if old(sampleReady) then old(sample) else monitor
      ensures state.published == old(state.published) + if old(sampleReady) then [shown] else []
    {
      shown := monitor;
      StepIsSound(state, Update);
      state := Apply(state, Update);
      if sampleReady {
        shown := sample;
        sampleReady := false;
      }
      if !requestPending && !sampleInProgress {
        requestPending := true;
      }
    }

    /** The locked section of a topology request: it never overwrites an unread sample. */
    method RequestTopologyRefresh()
      requires Valid() && state.owner.Running?
      modifies this
      ensures Valid() && state == Apply(old(state), RequestTopology)
    {
      StepIsSound(state, RequestTopology);
      state := Apply(state, RequestTopology);
      topologyRequested := true;
      if !sampleReady && !requestPending && !sampleInProgress {
        requestPending := true;
      }
    }

    /** The worker's locked section before sampling; None tells it to leave. */
    method TakeOrStop() returns (forced: Option<bool>)
      requires Valid() && state.worker.Waiting? && (requestPending || stopRequested)
      modifies this
      ensures Valid()
      ensures state == Apply(old(state), if old(stopRequested) then SeeStop else TakeRequest)
      ensures forced == if old(stopRequested) then None else Some(old(topologyRequested))
    {
      if stopRequested {
        StepIsSound(state, SeeStop);
        state := Apply(state, SeeStop);
        return None;
      }
      StepIsSound(state, TakeRequest);
      state := Apply(state, TakeRequest);
      requestPending := false;
      sampleInProgress := true;
      forced := Some(topologyRequested);
      topologyRequested := false;
    }

    /** The worker's locked section after sampling. */
    method Complete(result: Option<nat>)
      requires Valid() && state.worker.Sampling?
      modifies this
      ensures Valid() && state == Apply(old(state), FinishSample(result))
    {
      StepIsSound(state, FinishSample(result));
      state := Apply(state, FinishSample(result));
      if result.Some? {
        sample := result.value;
      }
      sampleInProgress := false;
      if result.Some? && !stopRequested {
        sampleReady := true;
      }
    }

    /** The owner's part of shutting down, after the stop request was signalled. */
    method Destroy() returns (last: bool)
      requires Valid() && state.owner.Running?
      modifies this
      ensures Valid() && state == Apply(Apply(old(state), SignalStop), ReleaseOwner)
      ensures last <==> state.freed
    {
      StepIsSound(state, SignalStop);
      state := Apply(state, SignalStop);
      stopRequested := true;
      StepIsSound(state, ReleaseOwner);
      state := Apply(state, ReleaseOwner);
      last := Release();
    }
  }
}
