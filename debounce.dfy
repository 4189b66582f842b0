/**
  The debounced write of `updateNowPlaying` and `saveNowPlaying`
  (src/content.js:39-60), as a state machine over values. The state holds the
  closure variables `data` and `debounceTimer`, the host's table of pending timers,
  and the history of snapshots the timer callback has serialised to the file.
  Time is an abstract clock: every event carries the moment it happens.
 */
module Debounce {
  import opened Wrappers
  import opened Track
  import opened Mutations

  /** `DEBOUNCE_INTERVAL_MS` */
  const DebounceIntervalMs: nat := 200

  datatype State = State(
    data: TrackState,               // the closure's `data`
    debounceTimer: Option<nat>,     // the id `setTimeout` last returned; kept after it fires
    timers: map<nat, nat>,          // the host's pending timers: id to deadline
    nextTimerId: nat,               // the id the host's `setTimeout` returns next
    writes: seq<TrackState>)        // what each `saveNowPlaying` serialised, oldest first

  /** The session invariant: stored values are non-empty strings under the three record
      keys, and the only timer that can be pending is the one `debounceTimer` names. */
  ghost predicate Valid(s: State) {
    && AllNonEmpty(s.data)
    && s.data.Keys <= TrackKeys
    && 0 < s.nextTimerId
    && (forall id :: id in s.timers ==> s.debounceTimer == Some(id))
    && (s.debounceTimer.Some? ==> 0 < s.debounceTimer.value < s.nextTimerId)
    && (forall i :: 0 <= i < |s.writes| ==> AllNonEmpty(s.writes[i]) && s.writes[i].Keys <= TrackKeys)
  }

  /** The state `setup` starts with: `data = {}`, no timer, nothing written. */
  function Initial(): (s: State)
    ensures Valid(s) && s.timers == map[] && s.writes == []
  {
    State(map[], None, map[], 1, [])
  }

  /** Lines 54-59 of `updateNowPlaying`, given the candidate read from the page at `now`:
      return early when no entry survives the filter; otherwise merge, cancel the pending
      timer and schedule a new one. */
  function Update(s: State, c: Candidate, now: nat): (t: State)
    ensures t.writes == s.writes
    ensures t.data == Merge(s.data, c)
    ensures !HasNonEmpty(c) ==> t == s
  {
    if !HasNonEmpty(c) then
      MergeNothing(s.data, c);
      s
    else
      var timers := if s.debounceTimer.Some? then s.timers - {s.debounceTimer.value} else s.timers;
      var id := s.nextTimerId;
      s.(data := Merge(s.data, c),
         debounceTimer := Some(id),
         timers := timers[id := now + DebounceIntervalMs],
         nextTimerId := id + 1)
  }

  /** The host runs the callback of timer `id` at `now`: `saveNowPlaying()`, which
      serialises `data` as it is at that moment (line 40). A timer that is not pending, or
      not yet due, does not run. */
  function Fire(s: State, id: nat, now: nat): (t: State)
    ensures t.data == s.data && t.debounceTimer == s.debounceTimer
    ensures t.timers.Keys <= s.timers.Keys
    ensures t.writes == if id in s.timers && s.timers[id] <= now then s.writes + [s.data] else s.writes
  {
    if id in s.timers && s.timers[id] <= now
    then s.(timers := s.timers - {id}, writes := s.writes + [s.data])
    else s
  }

  /** The host's timer phase at `now`: run the debounce timer if it is due. */
  function Tick(s: State, now: nat): (t: State)
    ensures t.data == s.data && t.debounceTimer == s.debounceTimer && t.nextTimerId == s.nextTimerId
    ensures t.timers.Keys <= s.timers.Keys
    ensures t.writes == s.writes || t.writes == s.writes + [s.data]
  {
    if s.debounceTimer.Some? then Fire(s, s.debounceTimer.value, now) else s
  }

  /** The timers of `s` that are due at `now`. */
  function Due(s: State, now: nat): set<nat> {
    set id | id in s.timers && s.timers[id] <= now
  }

  /** At most one write is ever pending. */
  lemma AtMostOnePending(s: State)
    requires Valid(s)
    ensures |s.timers| <= 1
  {
    if s.debounceTimer.Some? && s.debounceTimer.value in s.timers {
      assert s.timers.Keys == {s.debounceTimer.value};
    } else {
      assert s.timers.Keys == {};
    }
  }

  /** A timer phase at or after the pending deadline writes `data` once and leaves
      nothing pending. */
  lemma TickAfterDeadline(s: State, deadline: nat, now: nat)
    requires Pending(s, deadline) && deadline <= now
    ensures Tick(s, now) == s.(timers := map[], writes := s.writes + [s.data])
  {
    assert s.timers - {s.debounceTimer.value} == map[];
  }

  /** A qualifying update cancels the pending timer and leaves exactly one new timer,
      fresh, due one interval after `now`. */
  lemma UpdateReschedules(s: State, c: Candidate, now: nat)
    requires Valid(s) && HasNonEmpty(c)
    ensures var t := Update(s, c, now);
      && s.nextTimerId !in s.timers
      && t.debounceTimer == Some(s.nextTimerId)
      && t.timers == map[s.nextTimerId := now + DebounceIntervalMs]
  {
    var id := s.nextTimerId;
    var cancelled := if s.debounceTimer.Some? then s.timers - {s.debounceTimer.value} else s.timers;
    assert cancelled == map[];
    assert Update(s, c, now).timers == cancelled[id := now + DebounceIntervalMs];
  }

  /** The timer phase runs every due timer, so writes once when a timer is due and never
      otherwise; the host table never holds a second timer that could write as well. */
  lemma TickRunsDue(s: State, now: nat)
    requires Valid(s)
    ensures var t := Tick(s, now);
      && |Due(s, now)| <= 1
      && t.data == s.data
      && t.timers == s.timers - Due(s, now)
      && t.writes == s.writes + (if Due(s, now) == {} then [] else [s.data])
  {
    AtMostOnePending(s);
    assert Due(s, now) <= s.timers.Keys;
    if s.debounceTimer.Some? {
      var id := s.debounceTimer.value;
      assert Due(s, now) == (if id in s.timers && s.timers[id] <= now then {id} else {});
    } else {
      assert Due(s, now) == {};
    }
  }

  /** The callback the host runs for a pending timer is the timer phase's. */
  lemma FireIsTick(s: State, id: nat, now: nat)
    requires Valid(s) && id in s.timers
    ensures Fire(s, id, now) == Tick(s, now)
  {
  }

  /** What the session sees: a batch of mutation records delivered with the candidate
      read from the page at that moment, or the host's timer phase. */
  datatype Event =
    | Mutated(batch: seq<MutationKind>, candidate: Candidate, at: nat)
    | TimerTick(at: nat)

  /** One event: the observer callback runs `updateNowPlaying` only for a relevant batch. */
  function Step(s: State, e: Event): (t: State)
    ensures e.Mutated? && !Fires(e.batch) ==> t == s
    ensures e.Mutated? ==> t.writes == s.writes
    ensures e.Mutated? && Fires(e.batch) ==> t.data == Merge(s.data, e.candidate)
    ensures e.TimerTick? ==> t.data == s.data
  {
    match e
    case Mutated(batch, c, at) => if Fires(batch) then Update(s, c, at) else s
    case TimerTick(at) => Tick(s, at)
  }

  /** The state after a sequence of events. */
  function Run(s: State, evs: seq<Event>): State
    decreases |evs|
  {
    if evs == [] then s else Run(Step(s, evs[0]), evs[1..])
  }

  lemma {:induction false} RunAppend(s: State, a: seq<Event>, b: seq<Event>)
    ensures Run(s, a + b) == Run(Run(s, a), b)
    decreases |a|
  {
    if a == [] {
      assert a + b == b;
    } else {
      assert (a + b)[0] == a[0];
      assert (a + b)[1..] == a[1..] + b;
      RunAppend(Step(s, a[0]), a[1..], b);
    }
  }

  lemma UpdatePreservesValid(s: State, c: Candidate, now: nat)
    requires Valid(s)
    ensures Valid(Update(s, c, now))
  {
    if HasNonEmpty(c) {
      MergeKeepsInvariant(s.data, c);
      UpdateReschedules(s, c, now);
    }
  }

  lemma TickPreservesValid(s: State, now: nat)
    requires Valid(s)
    ensures Valid(Tick(s, now))
  {
    var t := Tick(s, now);
    if t != s {
      assert t.writes == s.writes + [s.data];
    }
  }

  lemma StepPreservesValid(s: State, e: Event)
    requires Valid(s)
    ensures Valid(Step(s, e))
  {
    match e
    case Mutated(batch, c, at) => UpdatePreservesValid(s, c, at);
    case TimerTick(at) => TickPreservesValid(s, at);
  }

  /** Every event sequence keeps the invariant: no empty value is ever stored or
      written, and at most one timer is ever pending. */
  lemma {:induction false} RunPreservesValid(s: State, evs: seq<Event>)
    requires Valid(s)
    ensures Valid(Run(s, evs))
    decreases |evs|
  {
    if evs != [] {
      StepPreservesValid(s, evs[0]);
      RunPreservesValid(Step(s, evs[0]), evs[1..]);
    }
  }

  /** No event removes a key from `data`, and the write history only grows. */
  lemma {:induction false} RunOnlyGrows(s: State, evs: seq<Event>)
    ensures s.data.Keys <= Run(s, evs).data.Keys
    ensures s.writes <= Run(s, evs).writes
    decreases |evs|
  {
    if evs != [] {
      if evs[0].Mutated? {
        MergeKeepsInvariant(s.data, evs[0].candidate);
      }
      RunOnlyGrows(Step(s, evs[0]), evs[1..]);
    }
  }

  /** A relevant batch whose candidate contributes something. */
  predicate Qualifies(e: Event) {
    e.Mutated? && Fires(e.batch) && HasNonEmpty(e.candidate)
  }

  /** Exactly one timer is pending, the debounce timer, due at `deadline`. */
  predicate Pending(s: State, deadline: nat) {
    s.debounceTimer.Some? && s.timers == map[s.debounceTimer.value := deadline]
  }

  /** A burst within the quiet interval: every event is a qualifying update or a timer
      phase before the deadline the latest update set (`deadline` for the first ones). */
  predicate Quiet(evs: seq<Event>, deadline: nat)
    decreases |evs|
  {
    evs == [] ||
    match evs[0]
    case Mutated(_, _, at) => Qualifies(evs[0]) && Quiet(evs[1..], at + DebounceIntervalMs)
    case TimerTick(at) => at < deadline && Quiet(evs[1..], deadline)
  }

  /** The deadline pending after a quiet burst. */
  function FinalDeadline(evs: seq<Event>, deadline: nat): nat
    decreases |evs|
  {
    if evs == [] then deadline
    else match evs[0]
      case Mutated(_, _, at) => FinalDeadline(evs[1..], at + DebounceIntervalMs)
      case TimerTick(_) => FinalDeadline(evs[1..], deadline)
  }

  /** A timer phase before the pending deadline runs nothing. */
  lemma TickBeforeDeadline(s: State, deadline: nat, now: nat)
    requires Pending(s, deadline) && now < deadline
    ensures Tick(s, now) == s
  {
  }

  /** Whatever was pending before, a qualifying update leaves one timer pending, due one
      interval later. */
  lemma UpdatePending(s: State, c: Candidate, now: nat)
    requires Valid(s) && HasNonEmpty(c)
    ensures Pending(Update(s, c, now), now + DebounceIntervalMs)
  {
    UpdateReschedules(s, c, now);
  }

  /** The deadline an event leaves pending inside a quiet burst. */
  function NextDeadline(e: Event, deadline: nat): nat {
    if e.Mutated? then e.at + DebounceIntervalMs else deadline
  }

  /** One event of a quiet burst. */
  lemma QuietStep(s: State, evs: seq<Event>, deadline: nat)
    requires Valid(s) && Pending(s, deadline) && Quiet(evs, deadline) && evs != []
    ensures var t := Step(s, evs[0]);
      var d := NextDeadline(evs[0], deadline);
      && Valid(t) && Pending(t, d) && t.writes == s.writes
      && Quiet(evs[1..], d)
      && FinalDeadline(evs, deadline) == FinalDeadline(evs[1..], d)
  {
    StepPreservesValid(s, evs[0]);
    match evs[0]
    case Mutated(_, c, at) => UpdatePending(s, c, at);
    case TimerTick(at) => TickBeforeDeadline(s, deadline, at);
  }

  /** During a quiet burst nothing is written and one timer stays pending, moved to one
      interval after the latest update. */
  lemma {:induction false} QuietBurst(s: State, evs: seq<Event>, deadline: nat)
    requires Valid(s) && Pending(s, deadline) && Quiet(evs, deadline)
    ensures Valid(Run(s, evs))
    ensures Pending(Run(s, evs), FinalDeadline(evs, deadline))
    ensures Run(s, evs).writes == s.writes
    decreases |evs|
  {
    if evs != [] {
      QuietStep(s, evs, deadline);
      QuietBurst(Step(s, evs[0]), evs[1..], NextDeadline(evs[0], deadline));
    }
  }

  /** N qualifying updates with no timer running in between cause exactly one write,
      once the quiet interval has passed, and that write holds `data` as the last update
      merged it. */
  lemma Coalesce(s: State, first: Event, burst: seq<Event>, now: nat)
    requires Valid(s) && Qualifies(first)
    requires Quiet(burst, first.at + DebounceIntervalMs)
    requires FinalDeadline(burst, first.at + DebounceIntervalMs) <= now
    ensures Run(s, [first] + burst + [TimerTick(now)]).writes == s.writes + [Run(s, [first] + burst).data]
    ensures Run(s, [first] + burst + [TimerTick(now)]).timers == map[]
  {
    var s1 := Step(s, first);
    UpdateReschedules(s, first.candidate, first.at);
    StepPreservesValid(s, first);
    assert Run(s, [first]) == s1;
    QuietBurst(s1, burst, first.at + DebounceIntervalMs);
    RunAppend(s, [first], burst);
    RunAppend(s, [first] + burst, [TimerTick(now)]);
  }

  /** A sequence of qualifying updates, each followed by a timer phase at least one quiet
      interval later. */
  predicate Spaced(evs: seq<Event>)
    decreases |evs|
  {
    evs == [] ||
    (&& |evs| >= 2
     && Qualifies(evs[0])
     && evs[1].TimerTick?
     && evs[0].at + DebounceIntervalMs <= evs[1].at
     && Spaced(evs[2..]))
  }

  /** Running a sequence that starts with `e`. */
  lemma RunCons(s: State, e: Event, rest: seq<Event>)
    ensures Run(s, [e] + rest) == Run(Step(s, e), rest)
  {
    var evs := [e] + rest;
    assert evs[0] == e && evs[1..] == rest;
  }

  /** Running one event, or two. */
  lemma RunShort(s: State, evs: seq<Event>)
    requires 1 <= |evs|
    ensures Run(s, evs[..1]) == Step(s, evs[0])
    ensures 2 <= |evs| ==> Run(s, evs[..2]) == Step(Step(s, evs[0]), evs[1])
  {
    var e0 := evs[0];
    assert evs[..1] == [e0] + [];
    RunCons(s, e0, []);
    if 2 <= |evs| {
      var e1 := evs[1];
      assert evs[..2] == [e0] + [e1];
      RunCons(s, e0, [e1]);
      assert [e1] == [e1] + [];
      RunCons(Step(s, e0), e1, []);
    }
  }

  /** An update followed by a timer phase at or after its deadline: the phase writes the
      merged data once, and the invariant holds throughout. */
  lemma RoundSteps(s: State, e0: Event, e1: Event)
    requires Valid(s) && Qualifies(e0) && e1.TimerTick? && e0.at + DebounceIntervalMs <= e1.at
    ensures var s2 := Step(Step(s, e0), e1);
      && Valid(s2)
      && s2.writes == s.writes + [Step(s, e0).data]
  {
    var u := Update(s, e0.candidate, e0.at);
    assert Step(s, e0) == u;
    UpdatePending(s, e0.candidate, e0.at);
    UpdatePreservesValid(s, e0.candidate, e0.at);
    TickAfterDeadline(u, e0.at + DebounceIntervalMs, e1.at);
    TickPreservesValid(u, e1.at);
    assert Step(u, e1) == Tick(u, e1.at);
  }

  /** One round of a spaced sequence: the update, then the timer phase that writes. */
  lemma SpacedRound(s: State, evs: seq<Event>)
    requires Valid(s) && Spaced(evs) && evs != []
    ensures var s2 := Run(s, evs[..2]);
      && Valid(s2)
      && s2.writes == s.writes + [Run(s, evs[..1]).data]
      && Run(s, evs) == Run(s2, evs[2..])
      && Spaced(evs[2..])
  {
    RoundSteps(s, evs[0], evs[1]);
    RunShort(s, evs);
    RunAppend(s, evs[..2], evs[2..]);
    assert evs[..2] + evs[2..] == evs;
  }

  /** Running a prefix that starts with a whole round. */
  lemma RunAfterRound(s: State, evs: seq<Event>, n: nat)
    requires 2 + n <= |evs|
    ensures Run(s, evs[..2 + n]) == Run(Run(s, evs[..2]), evs[2..][..n])
  {
    assert evs[..2 + n] == evs[..2] + evs[2..][..n];
    RunAppend(s, evs[..2], evs[2..][..n]);
  }

  /** Where the writes of a spaced sequence come from: the history after the first
      round, shifted by the write that round made. */
  lemma SpacedShift(s: State, evs: seq<Event>, n: nat, w: seq<TrackState>)
    requires 1 <= n && |evs| == 2 * n
    requires |Run(s, evs[..2]).writes| == |s.writes| + 1
    requires Run(s, evs[..2]).writes[|s.writes|] == Run(s, evs[..1]).data
    requires |w| >= |s.writes| + n && w[..|s.writes| + 1] == Run(s, evs[..2]).writes
    requires forall j :: 0 <= j < n - 1 ==>
      w[|s.writes| + 1 + j] == Run(Run(s, evs[..2]), evs[2..][..2 * j + 1]).data
    ensures forall i :: 0 <= i < n ==> w[|s.writes| + i] == Run(s, evs[..2 * i + 1]).data
  {
    var k := |s.writes|;
    forall i | 0 <= i < n
      ensures w[k + i] == Run(s, evs[..2 * i + 1]).data
    {
      if i == 0 {
        assert w[k] == w[..k + 1][k];
      } else {
        var j := i - 1;
        assert w[k + i] == w[k + 1 + j];
        RunAfterRound(s, evs, 2 * j + 1);
      }
    }
  }

  /** `n` updates further apart than the quiet interval cause `n` writes, and each
      write holds `data` as its own update merged it. */
  lemma {:induction false} SpacedWrites(s: State, evs: seq<Event>, n: nat)
    requires Valid(s) && Spaced(evs) && |evs| == 2 * n
    ensures |Run(s, evs).writes| == |s.writes| + n
    ensures Run(s, evs).writes[..|s.writes|] == s.writes
    ensures forall i :: 0 <= i < n ==>
      Run(s, evs).writes[|s.writes| + i] == Run(s, evs[..2 * i + 1]).data
    decreases n
  {
    if n > 0 {
      SpacedRound(s, evs);
      var s2 := Run(s, evs[..2]);
      var k := |s.writes|;
      assert |s2.writes| == k + 1;
      SpacedWrites(s2, evs[2..], n - 1);
      var w := Run(s, evs).writes;
      assert w == Run(s2, evs[2..]).writes;
      assert w[..k + 1] == s2.writes;
      assert w[..k] == s.writes by {
        assert w[..k] == s2.writes[..k];
      }
      SpacedShift(s, evs, n, w);
    }
  }

  /** A batch of character-data records only changes nothing. */
  lemma IrrelevantBatch(s: State, batch: seq<MutationKind>, c: Candidate, at: nat)
    requires forall i :: 0 <= i < |batch| ==> batch[i] == CharacterData
    ensures Step(s, Mutated(batch, c, at)) == s
  {
    CharacterDataOnly(batch);
  }

  /** A candidate that holds only a song stores that song and touches nothing else. */
  lemma MergeSongOnly(d: TrackState, c: Candidate)
    requires !IsNonEmptyString(c.cover) && !IsNonEmptyString(c.artist) && IsNonEmptyString(c.song)
    ensures Merge(d, c) == d[SongKey := c.song.s]
  {
    var r := Merge(d, c);
    var e := d[SongKey := c.song.s];
    forall k ensures k in r <==> k in e {
      assert IsNonEmptyString(Field(c, k)) <==> k == SongKey;
    }
    forall k | k in r ensures r[k] == e[k] {
      assert IsNonEmptyString(Field(c, k)) <==> k == SongKey;
    }
  }

  /** The data after two qualifying changes from the start. */
  lemma TwoChangesData(c0: Candidate, c1: Candidate, t0: nat, t1: nat)
    requires HasNonEmpty(c0) && HasNonEmpty(c1)
    ensures Run(Initial(), [Mutated([ChildList], c0, t0), Mutated([ChildList], c1, t1)]).data
      == Merge(Merge(map[], c0), c1)
  {
    var first, second := Mutated([ChildList], c0, t0), Mutated([ChildList], c1, t1);
    assert RelevantMutations([ChildList]) == [ChildList];
    RunShort(Initial(), [first, second]);
    assert [first, second][..2] == [first, second];
    var u := Update(Initial(), c0, t0);
    assert Step(Initial(), first) == u;
    assert Step(u, second) == Update(u, c1, t1);
  }

  /** Two changes with a timer phase between them that comes before the first change's
      deadline, then the timer phase once the last interval has passed: the early phase
      writes nothing, and the late one writes once, the second change merged over the first. */
  lemma TwoRapidChanges(c0: Candidate, c1: Candidate, t0: nat, t: nat, t1: nat, now: nat)
    requires HasNonEmpty(c0) && HasNonEmpty(c1)
    requires t < t0 + DebounceIntervalMs && t1 + DebounceIntervalMs <= now
    ensures Run(Initial(), [Mutated([ChildList], c0, t0), TimerTick(t), Mutated([ChildList], c1, t1), TimerTick(now)]).writes
      == [Merge(Merge(map[], c0), c1)]
  {
    var first, tick, second := Mutated([ChildList], c0, t0), TimerTick(t), Mutated([ChildList], c1, t1);
    assert RelevantMutations([ChildList]) == [ChildList];
    assert Qualifies(first) && Qualifies(second);
    var burst := [tick, second];
    assert burst[1..] == [second] && [second][1..] == [];
    assert Quiet([second], t0 + DebounceIntervalMs);
    assert Quiet(burst, t0 + DebounceIntervalMs);
    assert FinalDeadline([second], t0 + DebounceIntervalMs) == t1 + DebounceIntervalMs;
    assert FinalDeadline(burst, t0 + DebounceIntervalMs) == t1 + DebounceIntervalMs;
    Coalesce(Initial(), first, burst, now);
    assert [first] + burst + [TimerTick(now)] == [first, tick, second, TimerTick(now)];
    var u := Update(Initial(), c0, t0);
    UpdatePending(Initial(), c0, t0);
    TickBeforeDeadline(u, t0 + DebounceIntervalMs, t);
    RunCons(Initial(), first, burst);
    assert Step(Initial(), first) == u;
    RunCons(u, tick, [second]);
    assert Step(u, tick) == u;
    RunCons(u, second, []);
    assert [second] == [second] + [];
  }
}
