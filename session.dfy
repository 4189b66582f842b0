/**
  The closure state of one `setup` call that found the now-playing widget
  (src/content.js:4-6), with the operations that update it in place: the observer
  callback, `updateNowPlaying`, and the debounce timer's callback `saveNowPlaying`.
  The host's timer table lives beside the closure's own fields, so that `setTimeout`
  and `clearTimeout` are updates of state too. Each method is proved to perform the
  matching step of the Debounce state machine.
 */
module NowPlaying {
  import opened Wrappers
  import opened Track
  import opened Mutations
  import Debounce

  class Session {
    var data: TrackState
    var debounceTimer: Option<nat>
    var timers: map<nat, nat>
    var nextTimerId: nat
    var writes: seq<TrackState>

    /** The session as a Debounce state. */
    function State(): Debounce.State
      reads this
    {
      Debounce.State(data, debounceTimer, timers, nextTimerId, writes)
    }

    ghost predicate Valid()
      reads this
    {
      Debounce.Valid(State())
    }

    /** `let data = {}; let debounceTimer;` with nothing written yet. */
    constructor ()
      ensures Valid() && State() == Debounce.Initial()
    {
      data := map[];
      debounceTimer := None;
      timers := map[];
      nextTimerId := 1;
      writes := [];
    }

    /** The host's `setTimeout`: a fresh id, pending until `deadline`. */
    method SetTimeout(deadline: nat) returns (id: nat)
      modifies this`timers, this`nextTimerId
      ensures id == old(nextTimerId) && nextTimerId == id + 1
      ensures timers == old(timers)[id := deadline]
    {
      id := nextTimerId;
      nextTimerId := nextTimerId + 1;
      timers := timers[id := deadline];
    }

    /** The host's `clearTimeout`: a timer that already ran or was cleared is ignored. */
    method ClearTimeout(id: nat)
      modifies this`timers
      ensures timers == old(timers) - {id}
    {
      timers := timers - {id};
    }

    /** `saveNowPlaying`: the file receives `data` as it is when the callback runs. */
    method SaveNowPlaying()
      modifies this`writes
      ensures writes == old(writes) + [data]
    {
      writes := writes + [data];
    }

    /** `updateNowPlaying`, given the candidate read from the page at `now`. */
    method UpdateNowPlaying(c: Candidate, now: nat)
      requires Valid()
      modifies this
      ensures Valid() && State() == Debounce.Update(old(State()), c, now)
    {
      var nonEmptyEntries := NonEmptyEntries(Entries(c));
      FilterEmptyIff(c);
      ghost var before := State();
      ghost var after := Debounce.Update(before, c, now);
      if |nonEmptyEntries| == 0 {
        assert after == before;
        return;
      }
      Debounce.UpdatePreservesValid(before, c, now);
      data := data + FromEntries(nonEmptyEntries);
      assert data == after.data;
      if debounceTimer.Some? {
        ClearTimeout(debounceTimer.value);
      }
      var id := SetTimeout(now + Debounce.DebounceIntervalMs);
      debounceTimer := Some(id);
      assert timers == after.timers;
      assert debounceTimer == after.debounceTimer && nextTimerId == after.nextTimerId;
      assert writes == after.writes;
      assert State() == after;
    }

    /** The observer callback: `updateNowPlaying` runs once for a batch with a relevant
        record, and not at all otherwise. */
    method OnMutations(batch: seq<MutationKind>, c: Candidate, now: nat)
      requires Valid()
      modifies this
      ensures Valid() && State() == Debounce.Step(old(State()), Debounce.Mutated(batch, c, now))
    {
      var relevantMutations := RelevantMutations(batch);
      if |relevantMutations| > 0 {
        UpdateNowPlaying(c, now);
      }
    }

    /** The host runs the callback of the pending, due timer `id`. */
    method OnTimer(id: nat, now: nat)
      requires Valid() && id in timers && timers[id] <= now
      modifies this
      ensures Valid() && State() == Debounce.Fire(old(State()), id, now)
      ensures State() == Debounce.Tick(old(State()), now)
    {
      ghost var before := State();
      Debounce.FireIsTick(before, id, now);
      Debounce.TickPreservesValid(before, now);
      timers := timers - {id};
      SaveNowPlaying();
    }
  }
}
