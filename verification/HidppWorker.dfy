/** The worker that keeps the readings up to date (src/logitech_hidpp.c): it copies a due slot,
    queries the device with the lock released, and puts the answer where the path is then. */
module HidppWorker {
  import opened Basics
  import opened HidppTable

  /** What the worker copied before the query. */
  datatype Request = Request(path: string, feature: Feature)

  datatype Outcome = Outcome(feature: Feature, reading: nat)

  datatype Answer = Answer(path: string, reading: nat)

  /** `answers` are the successful queries that ended before the stop request, in order. */
  datatype State = State(slots: seq<Slot>, query: Option<Request>, stopped: bool, answers: seq<Answer>)

  function Initial(): State {
    State([], None, false, [])
  }

  datatype Step =
    | SetDevices(paths: seq<string>)
    | Take(now: nat, later: nat)
    | Finish(outcome: Option<Outcome>, now: nat)
    | Stop

  /** The first slot whose time has come. */
  function FirstDue(slots: seq<Slot>, now: nat): (r: Option<nat>)
    ensures r.Some? ==> r.value < |slots| && slots[r.value].nextQuery <= now && forall i :: 0 <= i < r.value ==> slots[i].nextQuery > now
    ensures r.None? ==> forall i :: 0 <= i < |slots| ==> slots[i].nextQuery > now
  {
    if slots == [] then None else
    var n := |slots| - 1;
    var earlier := FirstDue(slots[..n], now);
    if earlier.None? && slots[n].nextQuery <= now then Some(n) else earlier
  }

  predicate Enabled(s: State, step: Step) {
    match step
    case SetDevices(_) => true
    case Take(now, _) => !s.stopped && s.query.None? && FirstDue(s.slots, now).Some?
    case Finish(_, _) => s.query.Some?
    case Stop => !s.stopped
  }

  /** The slot after its query ended. */
  function Answered(slot: Slot, outcome: Option<Outcome>, now: nat): Slot {
    match outcome
    case Some(o) => slot.(feature := o.feature, reading := o.reading, nextQuery := now + REFRESH, valid := true)
    case None => slot.(feature := UNKNOWN, nextQuery := now + RETRY)
  }

  function Apply(s: State, step: Step): State
    requires Enabled(s, step)
  {
    match step
    case SetDevices(paths) =>
      (match Updated(s.slots, paths)
       case None => s
       case Some(u) => s.(slots := u))
    case Take(now, later) =>
      var i := FirstDue(s.slots, now).value;
      s.(slots := s.slots[i := s.slots[i].(nextQuery := later + RETRY)],
         query := Some(Request(s.slots[i].path, s.slots[i].feature)))
    case Finish(outcome, now) =>
      var path := s.query.value.path;
      var i := FindSlot(s.slots, path);
      s.(query := None,
         slots := if i.Some? && !s.stopped then s.slots[i.value := Answered(s.slots[i.value], outcome, now)] else s.slots,
         answers := s.answers + if outcome.Some? && !s.stopped then [Answer(path, outcome.value.reading)] else [])
    case Stop => s.(stopped := true)
  }

  // ----- Every reading belongs to its slot's path -----

  function LatestAnswer(answers: seq<Answer>, path: string): Option<nat> {
    if answers == [] then None
    else if answers[|answers| - 1].path == path then Some(answers[|answers| - 1].reading)
    else LatestAnswer(answers[..|answers| - 1], path)
  }

  ghost predicate Sound(s: State) {
    && |s.slots| <= MAX_DEVICES
    && (forall i :: 0 <= i < |s.slots| ==> 0 < |s.slots[i].path| < PATH_SIZE)
    && (forall i :: 0 <= i < |s.slots| && s.slots[i].valid ==>
          && FindSlot(s.slots, s.slots[i].path) == Some(i)
          && LatestAnswer(s.answers, s.slots[i].path) == Some(s.slots[i].reading))
  }

  lemma {:induction false} FindAfterUpdate(slots: seq<Slot>, i: nat, slot: Slot, path: string)
    requires i < |slots| && slot.path == slots[i].path
    ensures FindSlot(slots[i := slot], path) == FindSlot(slots, path)
  {
    var n := |slots| - 1;
    if i == n {
      assert slots[i := slot][..n] == slots[..n];
    } else {
      assert slots[i := slot][..n] == slots[..n][i := slot];
      FindAfterUpdate(slots[..n], i, slot, path);
    }
  }

  /** A slot with a reading in the new table is an old one, at the first place with its path. */
  lemma {:induction false} ValidSlotsSurvive(table: seq<Slot>, paths: seq<string>, i: nat)
    requires Updated(table, paths).Some? && forall k :: 0 <= k < |table| ==> |table[k].path| < PATH_SIZE
    requires i < |Updated(table, paths).value| && Updated(table, paths).value[i].valid
    ensures var u := Updated(table, paths).value;
      && FindSlot(u, u[i].path) == Some(i)
      && FindSlot(table, u[i].path).Some? && u[i] == table[FindSlot(table, u[i].path).value]
  {
    var n := |paths| - 1;
    var u := Updated(table, paths[..n]).value;
    var path := paths[n];
    SurvivorPath(table, path);
    var slot := Survivor(table, path);
    if i < |u| {
      ValidSlotsSurvive(table, paths[..n], i);
    }
    if path != "" && FindSlot(u, path).None? {
      FindOneMore(u, slot, Updated(table, paths).value[i].path);
    }
  }

  lemma {:induction false} TakeIsSound(s: State, now: nat, later: nat)
    requires Sound(s) && Enabled(s, Take(now, later))
    ensures Sound(Apply(s, Take(now, later)))
  {
    var i := FirstDue(s.slots, now).value;
    var slot := s.slots[i].(nextQuery := later + RETRY);
    var after := s.slots[i := slot];
    assert Apply(s, Take(now, later)).slots == after && Apply(s, Take(now, later)).answers == s.answers;
    hide FindSlot, FirstDue, LatestAnswer, Apply;
    forall k | 0 <= k < |after| && after[k].valid
      ensures FindSlot(after, after[k].path) == Some(k) && LatestAnswer(s.answers, after[k].path) == Some(after[k].reading)
    {
      assert after[k].path == s.slots[k].path && after[k].reading == s.slots[k].reading && s.slots[k].valid;
      FindAfterUpdate(s.slots, i, slot, s.slots[k].path);
    }
  }

  lemma {:induction false} LatestOneMore(answers: seq<Answer>, answer: Answer, path: string)
    ensures LatestAnswer(answers + [answer], path) ==
      if answer.path == path then Some(answer.reading) else LatestAnswer(answers, path)
  {
    assert (answers + [answer])[..|answers|] == answers;
  }

  lemma {:induction false} FinishIsSound(s: State, outcome: Option<Outcome>, now: nat)
    requires Sound(s) && Enabled(s, Finish(outcome, now))
    ensures Sound(Apply(s, Finish(outcome, now)))
  {
    var path, after := s.query.value.path, Apply(s, Finish(outcome, now));
    var found := FindSlot(s.slots, path);
    assert s.answers + [] == s.answers;
    forall k | 0 <= k < |after.slots| && after.slots[k].valid
      ensures FindSlot(after.slots, after.slots[k].path) == Some(k)
      ensures LatestAnswer(after.answers, after.slots[k].path) == Some(after.slots[k].reading)
    {
      if found.Some? && !s.stopped {
        FindAfterUpdate(s.slots, found.value, Answered(s.slots[found.value], outcome, now), after.slots[k].path);
      }
      if outcome.Some? && !s.stopped {
        LatestOneMore(s.answers, Answer(path, outcome.value.reading), after.slots[k].path);
      }
    }
  }

  lemma {:induction false} StepIsSound(s: State, step: Step)
    requires Sound(s) && Enabled(s, step)
    ensures Sound(Apply(s, step))
  {
    match step
    case SetDevices(paths) =>
      if Updated(s.slots, paths).Some? {
        UpdatedFitBuffers(s.slots, paths);
        var u := Updated(s.slots, paths).value;
        forall i | 0 <= i < |u| && u[i].valid
          ensures FindSlot(u, u[i].path) == Some(i) && LatestAnswer(s.answers, u[i].path) == Some(u[i].reading)
        {
          ValidSlotsSurvive(s.slots, paths, i);
        }
      }
    case Take(now, later) => TakeIsSound(s, now, later);
    case Finish(outcome, now) => FinishIsSound(s, outcome, now);
    case Stop =>
  }

  ghost predicate IsExecution(states: seq<State>, steps: seq<Step>) {
    && |states| == |steps| + 1 && states[0] == Initial()
    && forall i :: 0 <= i < |steps| ==> Enabled(states[i], steps[i]) && states[i + 1] == Apply(states[i], steps[i])
  }

  lemma {:induction false} ExecutionIsSound(states: seq<State>, steps: seq<Step>, i: nat)
    requires IsExecution(states, steps) && i < |states|
    ensures Sound(states[i])
  {
    if i > 0 {
      ExecutionIsSound(states, steps, i - 1);
      StepIsSound(states[i - 1], steps[i - 1]);
    }
  }

  /** In every interleaving a reading that can be seen is the latest answer of a query of its own path. */
  lemma {:induction false} ReadingsAreOwn(states: seq<State>, steps: seq<Step>, i: nat, path: string)
    requires IsExecution(states, steps) && i < |states| && Shown(states[i].slots, path).Some?
    ensures LatestAnswer(states[i].answers, path) == Shown(states[i].slots, path)
  {
    ExecutionIsSound(states, steps, i);
  }

  /** The paths stay different as long as every listed path fits its buffer. */
  lemma {:induction false} PathsStayDistinct(states: seq<State>, steps: seq<Step>, i: nat)
    requires IsExecution(states, steps) && i < |states|
    requires forall k :: 0 <= k < i && steps[k].SetDevices? ==> Short(steps[k].paths)
    ensures DistinctPaths(states[i].slots)
  {
    if i > 0 {
      PathsStayDistinct(states, steps, i - 1);
      ExecutionIsSound(states, steps, i - 1);
      var s, step := states[i - 1], steps[i - 1];
      if step.SetDevices? && Updated(s.slots, step.paths).Some? {
        ShortNeverCollides(step.paths);
        DistinctUnlessCut(s.slots, step.paths);
      }
    }
  }

  lemma ShortNeverCollides(paths: seq<string>)
    requires Short(paths)
    ensures !Collides(paths)
  {
  }

  /** An answer reaches no slot but the one of its own path, and none once that path is gone. */
  lemma {:induction false} AnswersStayHome(s: State, outcome: Option<Outcome>, now: nat, i: nat)
    requires Sound(s) && s.query.Some? && i < |s.slots|
    requires s.slots[i].path != s.query.value.path
    ensures Apply(s, Finish(outcome, now)).slots[i] == s.slots[i]
  {
  }

  /** What can be read for a path. */
  function Shown(slots: seq<Slot>, path: string): Option<nat> {
    var i := FindSlot(slots, path);
    if path != "" && i.Some? && slots[i.value].valid then Some(slots[i.value].reading) else None
  }

  /** The first listed path that is kept in the given form; one that was cut to it differs from it. */
  function FirstAs(paths: seq<string>, stored: string): (r: Option<string>)
    ensures r.Some? ==> r.value in paths && r.value != "" && Stored(r.value) == stored
    ensures Short(paths) && stored != "" ==> (r == Some(stored) <==> stored in paths)
  {
    if paths == [] then None else
    var n := |paths| - 1;
    assert paths == paths[..n] + [paths[n]];
    var earlier := FirstAs(paths[..n], stored);
    if earlier.None? && paths[n] != "" && Stored(paths[n]) == stored then Some(paths[n]) else earlier
  }

  /** After a new set of devices a path shows what it showed before when the set was refused or
      lists it before any longer path that is cut to it, and nothing otherwise. */
  lemma {:induction false} SetDevicesKeepsReadings(s: State, paths: seq<string>, path: string)
    requires Sound(s) && path != ""
    ensures Shown(Apply(s, SetDevices(paths)).slots, path) ==
      if Updated(s.slots, paths).None? || FirstAs(paths, path) == Some(path) then Shown(s.slots, path) else None
  {
    if Updated(s.slots, paths).Some? {
      SlotOfFirst(s.slots, paths, path);
      var first := FirstAs(paths, path);
      if first.Some? && first != Some(path) {
        SurvivorPath(s.slots, first.value);
      }
    }
  }

  lemma UpdatedUnfolds(table: seq<Slot>, paths: seq<string>)
    requires paths != [] && Updated(table, paths).Some?
    ensures var n := |paths| - 1;
      && Updated(table, paths[..n]).Some?
      && Updated(table, paths).value ==
         var u := Updated(table, paths[..n]).value;
         if paths[n] == "" || FindSlot(u, paths[n]).Some? then u else u + [Survivor(table, paths[n])]
  {
    hide FindSlot, Survivor;
  }

  lemma FirstAsUnfolds(paths: seq<string>, stored: string)
    requires paths != []
    ensures var n := |paths| - 1;
      var earlier := FirstAs(paths[..n], stored);
      FirstAs(paths, stored) == if earlier.None? && paths[n] != "" && Stored(paths[n]) == stored then Some(paths[n]) else earlier
  {
    hide Stored, Short;
  }

  lemma FoundIsShort(slots: seq<Slot>, path: string)
    requires FindSlot(slots, path).Some? && forall i :: 0 <= i < |slots| ==> |slots[i].path| < PATH_SIZE
    ensures Stored(path) == path
  {
  }

  lemma FoundAt(slots: seq<Slot>, path: string)
    ensures FindSlot(slots, path).Some? ==> FindSlot(slots, path).value < |slots|
  {
  }

  lemma {:induction false} SlotOfFirst(table: seq<Slot>, paths: seq<string>, path: string)
    requires Updated(table, paths).Some? && path != "" && forall k :: 0 <= k < |table| ==> |table[k].path| < PATH_SIZE
    ensures var u, first := Updated(table, paths).value, FirstAs(paths, path);
      && (FindSlot(u, path).Some? <==> first.Some?)
      && (first.Some? ==> u[FindSlot(u, path).value] == Survivor(table, first.value))
  {
    if paths == [] {
    } else {
      hide *;
      var n := |paths| - 1;
      var p := paths[n];
      UpdatedUnfolds(table, paths);
      FirstAsUnfolds(paths, path);
      var u, slot := Updated(table, paths[..n]).value, Survivor(table, p);
      SlotOfFirst(table, paths[..n], path);
      UpdatedFitBuffers(table, paths[..n]);
      FoundAt(u, path);
      SurvivorPath(table, p);
      FindOneMore(u, slot, path);
      if FindSlot(u, p).Some? {
        FoundIsShort(u, p);
      }
    }
  }

  /** The slot of a path, if it has one. */
  function SlotOf(slots: seq<Slot>, path: string): Option<Slot> {
    var i := FindSlot(slots, path);
    if i.Some? then Some(slots[i.value]) else None
  }

  lemma SlotOfUpdated(slots: seq<Slot>, i: nat, slot: Slot, path: string)
    requires i < |slots| && slot.path == slots[i].path && FindSlot(slots, slots[i].path) == Some(i)
    ensures SlotOf(slots[i := slot], path) == if path == slot.path then Some(slot) else SlotOf(slots, path)
  {
    FindAfterUpdate(slots, i, slot, path);
  }

  /** A successful query makes its reading the one that is shown for its path, keeps the feature it
      found, and rests the device for ten seconds. A failed one keeps what is shown, forgets the
      feature and rests the device for thirty. An answer that finds its path gone, or the worker
      stopped, changes nothing; nor does any answer change another path. */
  lemma {:induction false} AnswersAreShown(s: State, outcome: Option<Outcome>, now: nat, path: string)
    requires Sound(s) && s.query.Some? && path != ""
    ensures var before, after := SlotOf(s.slots, path), SlotOf(Apply(s, Finish(outcome, now)).slots, path);
      if path == s.query.value.path && before.Some? && !s.stopped then
        && after.Some? && after.value.path == path
        && (if outcome.Some? then
              after.value.valid && after.value.reading == outcome.value.reading && after.value.feature == outcome.value.feature &&
              after.value.nextQuery == now + 10_000
            else
              after.value.valid == before.value.valid && after.value.reading == before.value.reading &&
              after.value.feature == UNKNOWN && after.value.nextQuery == now + 30_000)
      else after == before
    ensures var t := Apply(s, Finish(outcome, now)).slots;
      Shown(t, path) == if SlotOf(t, path).Some? && SlotOf(t, path).value.valid then Some(SlotOf(t, path).value.reading) else None
  {
    var asked := s.query.value.path;
    var i := FindSlot(s.slots, asked);
    if i.Some? && !s.stopped {
      hide Answered, Sound;
      AnsweredPath(s.slots[i.value], outcome, now);
      SlotOfUpdated(s.slots, i.value, Answered(s.slots[i.value], outcome, now), path);
      AnsweredIs(s.slots[i.value], outcome, now);
    }
  }

  lemma AnsweredPath(slot: Slot, outcome: Option<Outcome>, now: nat)
    ensures Answered(slot, outcome, now).path == slot.path
  {
  }

  lemma AnsweredIs(slot: Slot, outcome: Option<Outcome>, now: nat)
    ensures var a := Answered(slot, outcome, now);
      if outcome.Some? then
        a.valid && a.reading == outcome.value.reading && a.feature == outcome.value.feature && a.nextQuery == now + 10_000
      else
        a.valid == slot.valid && a.reading == slot.reading && a.feature == UNKNOWN && a.nextQuery == now + 30_000
  {
  }

  /** One of the first n steps was the stop request. */
  ghost predicate WasStopped(steps: seq<Step>, n: nat) {
    n > 0 && n <= |steps| && (steps[n - 1].Stop? || WasStopped(steps, n - 1))
  }

  /** A query was begun and has not ended within the first n steps. */
  ghost predicate IsQuerying(steps: seq<Step>, n: nat) {
    n > 0 && n <= |steps| && (steps[n - 1].Take? || (!steps[n - 1].Finish? && IsQuerying(steps, n - 1)))
  }

  /** In every interleaving the worker stops exactly when it was asked to, and has one query under way
      exactly between taking a slot and finishing it. */
  lemma {:induction false} StopAndQueryFollowSteps(states: seq<State>, steps: seq<Step>, i: nat)
    requires IsExecution(states, steps) && i < |states|
    ensures states[i].stopped <==> WasStopped(steps, i)
    ensures states[i].query.Some? <==> IsQuerying(steps, i)
  {
    if i > 0 {
      StopAndQueryFollowSteps(states, steps, i - 1);
      FlagsAfter(states[i - 1], steps[i - 1]);
      hide Apply;
    }
  }

  lemma FlagsAfter(s: State, step: Step)
    requires Enabled(s, step)
    ensures Apply(s, step).stopped <==> s.stopped || step.Stop?
    ensures Apply(s, step).query.Some? <==> step.Take? || (!step.Finish? && s.query.Some?)
  {
    hide Updated, FindSlot;
  }

  /** Taking a slot asks for the path and feature of the first one that is due, rests that slot for
      thirty seconds and shows the same for every path. */
  lemma {:induction false} TakeAsksForTheFirstDue(s: State, now: nat, later: nat, path: string)
    requires Sound(s) && Enabled(s, Take(now, later))
    ensures var t := Apply(s, Take(now, later));
      && Shown(t.slots, path) == Shown(s.slots, path)
      && exists i :: 0 <= i < |s.slots| && s.slots[i].nextQuery <= now
           && (forall j :: 0 <= j < i ==> s.slots[j].nextQuery > now)
           && t.query == Some(Request(s.slots[i].path, s.slots[i].feature)) && t.slots[i].nextQuery == later + 30_000
           && forall j :: 0 <= j < |s.slots| && j != i ==> t.slots[j] == s.slots[j]
  {
    var i := FirstDue(s.slots, now).value;
    FindAfterUpdate(s.slots, i, s.slots[i].(nextQuery := later + RETRY), path);
    hide FindSlot, FirstDue;
    var t := Apply(s, Take(now, later));
    assert t.slots == s.slots[i := s.slots[i].(nextQuery := later + RETRY)];
  }

  // ----- The table in place -----

  lemma {:induction false} FindInPrefix(slots: seq<Slot>, n: nat, path: string)
    requires n <= |slots| && FindSlot(slots[..n], path).Some?
    ensures FindSlot(slots, path) == FindSlot(slots[..n], path)
  {
    if n == |slots| {
      assert slots[..n] == slots;
    } else {
      assert slots[..|slots| - 1][..n] == slots[..n];
      FindInPrefix(slots[..|slots| - 1], n, path);
    }
  }

  lemma {:induction false} DueInPrefix(slots: seq<Slot>, n: nat, now: nat)
    requires n <= |slots| && FirstDue(slots[..n], now).Some?
    ensures FirstDue(slots, now) == FirstDue(slots[..n], now)
  {
    if n == |slots| {
      assert slots[..n] == slots;
    } else {
      assert slots[..|slots| - 1][..n] == slots[..n];
      DueInPrefix(slots[..|slots| - 1], n, now);
    }
  }

  class DeviceTable {
    const devices: array<Slot>
    var count: nat
    var stopRequested: bool
    ghost var state: State

    ghost predicate Valid()
      reads this, devices
    {
      devices.Length == MAX_DEVICES && count <= MAX_DEVICES && state.slots == devices[..count] &&
      stopRequested == state.stopped && Sound(state)
    }

    constructor ()
      ensures Valid() && fresh(devices) && state == Initial()
    {
      devices := new Slot[MAX_DEVICES](_ => EMPTY);
      count, stopRequested, state := 0, false, Initial();
    }

    method Find(path: string) returns (slot: Option<nat>)
      requires count <= devices.Length
      ensures slot == FindSlot(devices[..count], path)
    {
      for index := 0 to count
        invariant FindSlot(devices[..index], path).None?
      {
        assert devices[..index + 1][..index] == devices[..index];
        if devices[index].path == path {
          assert devices[..count][..index + 1] == devices[..index + 1];
          FindInPrefix(devices[..count], index + 1, path);
          return Some(index);
        }
      }
      slot := None;
    }

    /** Replaces the set of devices; nothing changes when it does not fit. */
    method SetDevices(paths: seq<string>) returns (ok: bool)
      requires Valid()
      modifies this, devices
      ensures Valid() && state == Apply(old(state), Step.SetDevices(paths))
      ensures ok <==> Updated(old(state.slots), paths).Some?
    {
      var updated, updatedCount := new Slot[MAX_DEVICES](_ => EMPTY), 0;
      updatedCount, ok := Collect(paths, updated);
      if !ok {
        return;
      }
      StepIsSound(state, Step.SetDevices(paths));
      forall i | 0 <= i < MAX_DEVICES {
        devices[i] := updated[i];
      }
      count := updatedCount;
      state := Apply(state, Step.SetDevices(paths));
      assert devices[..count] == updated[..count];
    }

    /** Gathers the slots of the listed paths, keeping those there already are. */
    method Collect(paths: seq<string>, updated: array<Slot>) returns (updatedCount: nat, ok: bool)
      requires count <= devices.Length && updated.Length == MAX_DEVICES && updated != devices
      modifies updated
      ensures match Updated(devices[..count], paths)
              case None => !ok
              case Some(u) => ok && updatedCount <= MAX_DEVICES && updated[..updatedCount] == u
    {
      hide Sound, FindSlot;
      ghost var table := devices[..count];
      updatedCount, ok := 0, true;
      for input := 0 to |paths|
        invariant devices[..count] == table
        invariant updatedCount <= MAX_DEVICES && Updated(table, paths[..input]) == Some(updated[..updatedCount])
      {
        assert paths[..input + 1][..input] == paths[..input];
        var path := paths[input];
        if path == "" {
          continue;
        }
        var duplicate := IsListed(updated, updatedCount, path);
        if duplicate {
          continue;
        }
        if updatedCount >= MAX_DEVICES {
          RefusedInPrefix(table, paths, input + 1);
          return updatedCount, false;
        }
        var existing := Find(path);
        ghost var before := updated[..updatedCount];
        updated[updatedCount] := if existing.Some? then devices[existing.value] else FreshSlot(path);
        updatedCount := updatedCount + 1;
        assert updated[..updatedCount] == before + [Survivor(table, path)];
      }
      assert paths[..|paths|] == paths;
    }

    /** Chooses a due slot, copies it and puts its next query off; None while nothing is due. */
    method TakeDue(now: nat, later: nat) returns (request: Option<Request>, wait: nat)
      requires Valid() && !stopRequested && state.query.None?
      modifies this, devices
      ensures Valid()
      ensures state == if Enabled(old(state), Take(now, later)) then Apply(old(state), Take(now, later)) else old(state)
      ensures request == state.query
      ensures request.None? ==> IsWait(now, wait)
    {
      var due: Option<nat>;
      due, wait := FindDue(now);
      if due.None? {
        return None, wait;
      }
      var slot := devices[due.value];
      TakeIsSound(state, now, later);
      request := Some(Request(slot.path, slot.feature));
      devices[due.value] := slot.(nextQuery := later + RETRY);
      state := Apply(state, Take(now, later));
      assert devices[..count] == old(devices[..count])[due.value := slot.(nextQuery := later + RETRY)];
    }

    /** The time until the earliest deadline, ten seconds at most. */
    ghost predicate IsWait(now: nat, wait: nat)
      requires count <= devices.Length
      reads this, devices
    {
      && 0 < wait <= REFRESH && (forall i :: 0 <= i < count ==> now + wait <= devices[i].nextQuery)
      && (wait == REFRESH || exists i :: 0 <= i < count && devices[i].nextQuery == now + wait)
    }

    method FindDue(now: nat) returns (due: Option<nat>, wait: nat)
      requires count <= devices.Length
      ensures due == FirstDue(devices[..count], now)
      ensures due.None? ==> IsWait(now, wait)
    {
      wait := REFRESH;
      for index := 0 to count
        invariant FirstDue(devices[..index], now).None?
        invariant 0 < wait <= REFRESH && forall i :: 0 <= i < index ==> now + wait <= devices[i].nextQuery
        invariant wait == REFRESH || exists i :: 0 <= i < index && devices[i].nextQuery == now + wait
      {
        assert devices[..index + 1][..index] == devices[..index];
        if devices[index].nextQuery <= now {
          assert devices[..count][..index + 1] == devices[..index + 1];
          DueInPrefix(devices[..count], index + 1, now);
          return Some(index), wait;
        }
        if devices[index].nextQuery - now < wait {
          wait := devices[index].nextQuery - now;
        }
      }
      due := None;
    }

    /** Stores the outcome of a query where its path is now, if it still is in the table. */
    method Complete(request: Request, outcome: Option<Outcome>, now: nat)
      requires Valid() && state.query == Some(request)
      modifies this, devices
      ensures Valid() && state == Apply(old(state), Finish(outcome, now))
    {
      FinishIsSound(state, outcome, now);
      var slot := Find(request.path);
      if slot.Some? && !stopRequested {
        var device := devices[slot.value];
        device := device.(nextQuery := now + if outcome.Some? then REFRESH else RETRY);
        if outcome.Some? {
          device := device.(feature := outcome.value.feature, reading := outcome.value.reading, valid := true);
        } else {
          device := device.(feature := UNKNOWN);
        }
        devices[slot.value] := device;
      }
      state := Apply(state, Finish(outcome, now));
    }

    /** The reading of a path, which is the latest answer of a query of that path. */
    method Snapshot(path: string) returns (reading: Option<nat>)
      requires Valid()
      ensures reading == Shown(devices[..count], path)
      ensures reading.Some? ==> LatestAnswer(state.answers, path) == reading
    {
      if path == "" {
        return None;
      }
      var slot := Find(path);
      reading := if slot.Some? && devices[slot.value].valid then Some(devices[slot.value].reading) else None;
    }

    method RequestStop()
      requires Valid() && !stopRequested
      modifies this
      ensures Valid() && state == Apply(old(state), Stop)
    {
      stopRequested := true;
      state := Apply(state, Stop);
    }
  }

  method IsListed(updated: array<Slot>, count: nat, path: string) returns (duplicate: bool)
    requires count <= updated.Length
    ensures duplicate == FindSlot(updated[..count], path).Some?
  {
    duplicate := false;
    for index := 0 to count
      invariant !duplicate && forall i :: 0 <= i < index ==> updated[i].path != path
    {
      if updated[index].path == path {
        assert updated[..count][index].path == path;
        return true;
      }
    }
  }

  lemma {:induction false} RefusedInPrefix(table: seq<Slot>, paths: seq<string>, n: nat)
    requires n <= |paths| && Updated(table, paths[..n]).None?
    ensures Updated(table, paths).None?
  {
    if n == |paths| {
      assert paths[..n] == paths;
    } else {
      assert paths[..|paths| - 1][..n] == paths[..n];
      RefusedInPrefix(table, paths[..|paths| - 1], n);
    }
  }
}
