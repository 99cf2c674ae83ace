/** The coordinator object of src/history_persistence.c: its atomics and the section its mutex
    protects, each method tied to the step model of module SaveCoordinator. */
module HistoryPersistence {
  import opened Basics
  import opened RecencyOrder
  import opened SaveCoordinator

  class SharedCoordinator {
    var references: nat
    var scheduled: nat
    var written: nat
    var file: Entries
    ghost var state: Coordinator

    /** The fields are those of the state of the protocol, between two steps outside the mutex. */
    ghost predicate Valid()
      reads this
    {
      && Sound(state) && state.holder.None?
      && references == state.references && scheduled == state.scheduled && written == state.written
      && file == File(state)
    }

    constructor (original: Entries)
      ensures Valid() && state == Initial(original)
    {
      references, scheduled, written, file := 1, 0, 0, original;
      state := Initial(original);
      InitialIsSound(original);
    }

    /** Captures the model in a new request, which holds a reference to the coordinator. */
    method CreateRequest(ghost id: nat, generation: nat, snapshot: Entries)
      requires Valid() && state.owned && id !in state.requests
      modifies this
      ensures Valid() && state == Apply(old(state), Create(id, Request(generation, snapshot, Created)))
      ensures references == old(references) + 1
    {
      ghost var create := Create(id, Request(generation, snapshot, Created));
      StepIsSound(state, create);
      references := references + 1;
      state := Apply(state, create);
    }

    /** Releases the reference of a finished request; true when it was the last one. */
    method FreeRequest(ghost id: nat) returns (last: bool)
      requires Valid() && id in state.requests && state.requests[id].phase.Finished?
      modifies this
      ensures Valid() && state == Apply(old(state), Free(id))
      ensures last <==> !state.owned && state.requests == map[]
    {
      StepIsSound(state, Free(id));
      RequestCount(state.requests, id, state.requests[id]);
      references := references - 1;
      state := Apply(state, Free(id));
      last := references == 0;
    }

    method NoteScheduled(generation: nat)
      requires Valid() && state.owned
      modifies this
      ensures Valid() && state == Apply(old(state), SaveCoordinator.NoteScheduled(generation))
    {
      StepIsSound(state, SaveCoordinator.NoteScheduled(generation));
      scheduled := generation;
      state := Apply(state, SaveCoordinator.NoteScheduled(generation));
    }

    /** The check before anything is prepared: true exactly when the request is to be skipped. */
    method IsOutdated(generation: nat) returns (outdated: bool)
      requires Valid()
      ensures outdated <==> generation < state.scheduled || generation <= state.written
    {
      if generation < scheduled {
        return true;
      }
      outdated := generation <= written;
    }

    /** The section protected by the mutex. While it runs no other request writes, and the file
        is replaced as a whole or, when `replaced` is false, not at all. It takes the prepared
        request through the same steps, to the same state, as the protocol does. */
    method PublishLocked(ghost id: nat, generation: nat, snapshot: Entries, replaced: bool) returns (failed: bool, wrote: bool)
      requires Valid() && id in state.requests && state.requests[id] == Request(generation, snapshot, Prepared)
      modifies this
      ensures Valid()
      ensures state == RunAlone(old(state), id, true, replaced)
      ensures id in state.requests && state.requests[id].phase == Finished(failed, wrote)
      ensures wrote ==> file == snapshot && written == generation
      ensures !wrote ==> file == old(file) && written == old(written)
    {
      RunAloneEnds(state, id, true, replaced);
      ghost var before := state;
      state := RunAlone(state, id, true, replaced);
      var latest := scheduled;
      var latestWritten := written;
      if generation < latest || generation <= latestWritten {
        return false, false;
      }
      failed, wrote := !replaced, false;
      if replaced {
        file := snapshot;
        written := generation;
        wrote := true;
      }
    }
  }
}
