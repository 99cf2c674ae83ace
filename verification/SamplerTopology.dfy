/** Topology requests end to end (src/monitor_backend_linux.c): the hand-off of module
    SamplerHandoff with every sample taken as module SampleSchedule says. */
module SamplerTopology {
  import opened SamplerHandoff
  import Clock = SampleSchedule

  /** An execution of the hand-off with the backend's schedule beside it. `samples[i]` is the sample
      that action i finishes; it was forced as the worker was told, and it yields a snapshot exactly
      when the clock had advanced. */
  ghost predicate IsSampling(states: seq<Sampler>, actions: seq<Action>, backends: seq<Clock.Schedule>, samples: seq<Clock.Sample>) {
    && IsExecution(states, actions) && |backends| == |states| && |samples| == |actions|
    && forall i :: 0 <= i < |actions| ==> Follows(states[i], actions[i], backends[i], backends[i + 1], samples[i])
  }

  ghost predicate Follows(s: Sampler, a: Action, before: Clock.Schedule, after: Clock.Schedule, x: Clock.Sample) {
    if a.FinishSample? && s.worker.Sampling? then
      x.forced == s.worker.forced && after == Clock.After(before, x) && (a.sample.Some? <==> Clock.Sampled(before, x))
    else after == before
  }

  /** No topology is requested after action j and before action k. */
  ghost predicate NoneRequested(actions: seq<Action>, j: int, k: int) {
    forall m :: 0 <= m < |actions| && j < m < k ==> !actions[m].RequestTopology?
  }

  /** Until it finishes, the sample that was started is the one under way. */
  lemma {:induction false} StaysSampling(
    states: seq<Sampler>, actions: seq<Action>, backends: seq<Clock.Schedule>, samples: seq<Clock.Sample>, j: nat, k: nat)
    requires IsSampling(states, actions, backends, samples) && j < k <= |actions| && actions[j].TakeRequest?
    requires forall m :: j < m < k ==> !actions[m].FinishSample?
    ensures states[k].worker == Sampling(states[j].topologyRequested) && backends[k] == backends[j]
    ensures NoneRequested(actions, j, k) ==> !states[k].topologyRequested
  {
    hide *;
    Lengths(states, actions, backends, samples);
    StepAt(states, actions, backends, samples, k - 1);
    if j + 1 == k {
      TakeStarts(states[j], actions[j], backends[j], backends[k], samples[j]);
    } else {
      FewerRequested(actions, j, k);
      StaysSampling(states, actions, backends, samples, j, k - 1);
      StepWhileSampling(states[k - 1], actions[k - 1], backends[k - 1], backends[k], samples[k - 1]);
    }
  }

  lemma Lengths(states: seq<Sampler>, actions: seq<Action>, backends: seq<Clock.Schedule>, samples: seq<Clock.Sample>)
    requires IsSampling(states, actions, backends, samples)
    ensures |states| == |backends| == |actions| + 1 && |samples| == |actions|
  {
  }

  lemma StepAt(states: seq<Sampler>, actions: seq<Action>, backends: seq<Clock.Schedule>, samples: seq<Clock.Sample>, i: nat)
    requires IsSampling(states, actions, backends, samples) && i < |actions|
    ensures Sound(states[i]) && Enabled(states[i], actions[i]) && states[i + 1] == Apply(states[i], actions[i])
    ensures Follows(states[i], actions[i], backends[i], backends[i + 1], samples[i])
  {
    ExecutionIsSound(states, actions, i);
    hide Sound, Enabled, Apply, Follows;
  }

  lemma TakeStarts(s: Sampler, a: Action, before: Clock.Schedule, after: Clock.Schedule, x: Clock.Sample)
    requires Enabled(s, a) && a.TakeRequest? && Follows(s, a, before, after, x)
    ensures after == before
    ensures Apply(s, a).worker == Sampling(s.topologyRequested) && !Apply(s, a).topologyRequested
  {
  }

  lemma FewerRequested(actions: seq<Action>, j: nat, k: nat)
    requires j + 1 < k <= |actions|
    ensures NoneRequested(actions, j, k) ==> NoneRequested(actions, j, k - 1) && !actions[k - 1].RequestTopology?
  {
  }

  lemma StepWhileSampling(s: Sampler, a: Action, before: Clock.Schedule, after: Clock.Schedule, x: Clock.Sample)
    requires Sound(s) && Enabled(s, a) && s.worker.Sampling? && !a.FinishSample? && Follows(s, a, before, after, x)
    ensures after == before
    ensures Apply(s, a).worker == s.worker
    ensures !a.RequestTopology? ==> Apply(s, a).topologyRequested == s.topologyRequested
  {
  }

  /** A topology request made at any moment is honoured by the next sample to start, that is, the
      sample scans the topology, if and only if the clock has advanced since the last one. If it
      has not, the sample leaves the schedule alone and the request is forgotten. */
  lemma {:induction false} RequestIsScanned(
    states: seq<Sampler>, actions: seq<Action>, backends: seq<Clock.Schedule>, samples: seq<Clock.Sample>,
    i: nat, j: nat, k: nat)
    requires IsSampling(states, actions, backends, samples) && i < j < k < |actions|
    requires actions[i].RequestTopology? && actions[j].TakeRequest? && forall m :: i < m < j ==> !actions[m].TakeRequest?
    requires actions[k].FinishSample? && forall m :: j < m < k ==> !actions[m].FinishSample?
    ensures Clock.Refreshes(backends[k], samples[k]) <==> samples[k].now > backends[j].lastUpdate
    ensures actions[k].sample.Some? <==> samples[k].now > backends[j].lastUpdate
    ensures samples[k].now <= backends[j].lastUpdate ==> backends[k + 1] == backends[j]
    ensures NoneRequested(actions, j, k) ==> !states[k + 1].topologyRequested
  {
    RequestIsCarried(states, actions, i, j);
    StaysSampling(states, actions, backends, samples, j, j + 1);
    StaysSampling(states, actions, backends, samples, j, k);
    assert states[k + 1] == Apply(states[k], actions[k]);
    assert Follows(states[k], actions[k], backends[k], backends[k + 1], samples[k]);
    Clock.ForcedScanNeedsTheClock(backends[k], samples[k]);
  }
}
