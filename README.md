# Spotify Now Playing content script, modelled in Dafny

`src/content.js` is a browser content script for the Spotify web player. Once the
page has loaded it looks for the "now playing" widget, retrying a bounded number of
times. When it finds the widget it adds a button. After the user has chosen a JSON
file, a mutation observer watches the widget. On each relevant change the script reads
the current cover, song and artist. It merges the non-empty string values into an
in-memory record `data`. It then (re)arms a 200 ms debounce timer, and when that timer
fires the record is serialised to the file.

The model keeps the observable logic and drops the host page. Its modules:

- `Track` (`track.dfy`): the candidate record the extractors produce, the filter on
  non-empty string entries and the merge into `data`. All pure functions.
- `Mutations` (`mutations.dfy`): the observer callback's filter on mutation kinds, and
  whether a batch triggers an update.
- `Debounce` (`debounce.dfy`): `updateNowPlaying`, the timer and `saveNowPlaying` as a
  state machine over values. The state holds `data`, `debounceTimer`, the host's table
  of pending timers and the list of snapshots written. There are single steps, runs
  over event sequences, and lemmas about bursts and spaced updates.
- `NowPlaying` (`session.dfy`): the closure of one `setup` call as a class `Session`.
  Its fields are the closure variables plus the host timer table and the write log.
  The methods `UpdateNowPlaying`, `OnMutations`, `OnTimer`, `SetTimeout`,
  `ClearTimeout` and `SaveNowPlaying` update the fields in place.
  `UpdateNowPlaying`, `OnMutations` and `OnTimer` are proved to reach the same state
  as `Debounce.Update`, `Debounce.Step` and `Debounce.Fire`. The three host primitives
  `SetTimeout`, `ClearTimeout` and `SaveNowPlaying` state their effect on the fields
  directly.
- `Bootstrap` (`bootstrap.dfy`): the decision `setup(attempts)` takes when the widget
  is or is not present, and the whole retry chain started by `setup(0)` as a loop.
- `Wrappers` (`wrappers.dfy`): `Option`.

Some inputs come from outside the script, and the model takes them as parameters:

- The extracted values arrive as a `Candidate`. Each field is either a string or
  "not a string".
- Widget presence at each attempt is a function `present: nat -> bool`.
- The clock is a natural number carried by each event.
- The host's timer ids come from a counter, `nextTimerId`.

## Model

| member | source | states |
|---|---|---|
| Track.EntriesOf | src/content.js:48-54 | `Object.entries(newData)` lists each of cover, song and artist exactly once, with that key's value, and nothing else |
| Track.NonEmptyEntries | src/content.js:54 | A pair survives exactly when its value is a string of length > 0 under the same key; never more entries than the input |
| Track.FromEntries | src/content.js:57 | The keys of the built object are exactly the keys of the entries, and each stored value comes from an entry with that key |
| Track.FromEntriesLastWins | src/content.js:57 | An entry whose key does not recur later supplies that key's value in `Object.fromEntries` |
| Track.ContributionOf | src/content.js:54-57 | The object made from the filtered entries has a key exactly for the non-empty string fields, and holds each such field's string |
| Track.Merge | src/content.js:57 | The spread merge: keys are the old keys plus the non-empty fields; each non-empty field overwrites its key; every other old key keeps its value |
| Track.MergeKeepsInvariant | src/content.js:54-57 | Keys only grow; every stored value stays a non-empty string; keys stay within cover, song and artist |
| Track.FilterEmptyIff | src/content.js:54-55 | The filtered entry list is non-empty exactly when some field is a non-empty string |
| Track.HasNonEmptyIff | src/content.js:48-55 | The early-return test holds exactly when some record key has a non-empty string value |
| Track.MergeNothing | src/content.js:55 | With no non-empty field the merge leaves `data` unchanged |
| Mutations.RelevantMutations | src/content.js:10 | Keeps every childList and attributes record (with multiplicity) and drops every characterData record |
| Mutations.FiresIff | src/content.js:10-11 | The callback runs exactly when the batch contains a childList or attributes record |
| Mutations.CharacterDataOnly | src/content.js:10-13 | A batch of characterData records only triggers nothing |
| Debounce.Initial | src/content.js:4-6 | The state `setup` starts with satisfies the session invariant, with no timer and no write |
| Debounce.Update | src/content.js:47-60 | `updateNowPlaying` merges the candidate into `data` and writes nothing; with no non-empty field the whole state is unchanged |
| Debounce.UpdateReschedules | src/content.js:58-59 | After a qualifying update the only pending timer is the fresh one, due 200 ms later, and `debounceTimer` names it; the previous one is cancelled |
| Debounce.Fire | src/content.js:39-45 | A timer callback leaves `data` and `debounceTimer` alone and appends a snapshot of `data` exactly when that timer is pending and due |
| Debounce.Tick | src/content.js:59 | The host's timer phase leaves `data`, `debounceTimer` and the id counter alone, only removes timers, and writes either nothing or one snapshot of `data` |
| Debounce.Step | src/content.js:9-13 | An observer batch writes nothing; an irrelevant batch changes nothing; a relevant one makes one merge of the candidate; a timer phase leaves `data` alone |
| Debounce.TickRunsDue | src/content.js:58-59 | The timer phase runs every due timer: at most one is due, it is removed, and exactly one write happens iff one is due |
| Debounce.TickAfterDeadline | src/content.js:59 | With the debounce timer pending and due, the timer phase empties the table and writes the current `data` |
| Debounce.TickBeforeDeadline | src/content.js:59 | Before the deadline the timer phase changes nothing |
| Debounce.FireIsTick | src/content.js:58-59 | Under the invariant, firing any pending timer is the same as the timer phase |
| Debounce.AtMostOnePending | src/content.js:58-59 | Under the session invariant at most one timer is pending |
| Debounce.UpdatePreservesValid | src/content.js:47-60 | An update keeps the session invariant |
| Debounce.TickPreservesValid | src/content.js:39-45 | The timer phase keeps the session invariant |
| Debounce.StepPreservesValid | src/content.js:9-13 | Any event keeps the session invariant |
| Debounce.RunPreservesValid | src/content.js:9-60 | Every reachable state has only non-empty values under record keys, at most one pending timer, and every written snapshot likewise holds only non-empty values under record keys |
| Debounce.RunOnlyGrows | src/content.js:57 | Over any run the keys of `data` only grow and earlier writes are never changed |
| Debounce.RunAppend | src/content.js:9-13 | Running two event sequences one after the other is running their concatenation |
| Debounce.UpdatePending | src/content.js:59 | After a qualifying update exactly the debounce timer is pending, due at the update time plus 200 ms |
| Debounce.QuietBurst | src/content.js:58-59 | Qualifying updates and early timer phases write nothing and leave one timer pending at the last update's deadline |
| Debounce.Coalesce | src/content.js:39-59 | N qualifying updates with no firing between them, then the deadline: exactly one write, holding the data after the last merge, and no timer left |
| Debounce.SpacedWrites | src/content.js:39-59 | n updates each followed by a timer phase at least 200 ms later: exactly n new writes, the i-th the data after the i-th update, older writes kept |
| Debounce.RoundSteps | src/content.js:39-59 | An update followed by a timer phase at or after its deadline writes the merged data once and keeps the invariant |
| Debounce.SpacedRound | src/content.js:39-59 | One update followed by a late timer phase writes the merged data once and keeps the invariant |
| Debounce.IrrelevantBatch | src/content.js:10-13 | A characterData-only batch leaves the whole state, data and timer included, unchanged |
| Debounce.MergeSongOnly | src/content.js:54-57 | A candidate with only the song set replaces the song and nothing else |
| Debounce.TwoChangesData | src/content.js:47-57 | Two changes from the start leave the second merged over the first in `data` |
| Debounce.TwoRapidChanges | src/content.js:39-59 | Two changes with a timer phase between them that comes before the first deadline, then a phase after the second deadline: a single write, holding the second change merged over the first |
| NowPlaying.Session.constructor | src/content.js:4-6 | A fresh session is the initial state and satisfies the invariant |
| NowPlaying.Session.SetTimeout | src/content.js:59 | Registers the deadline under a fresh id and returns that id |
| NowPlaying.Session.ClearTimeout | src/content.js:58 | Cancels the id; cancelling an id that already fired does nothing |
| NowPlaying.Session.SaveNowPlaying | src/content.js:39-45 | Appends a snapshot of the current `data` to the file's write history |
| NowPlaying.Session.UpdateNowPlaying | src/content.js:47-60 | The in-place update keeps the invariant and reaches exactly the `Debounce.Update` state |
| NowPlaying.Session.OnMutations | src/content.js:9-13 | The observer callback reaches exactly the `Debounce.Step` state of the batch event |
| NowPlaying.Session.OnTimer | src/content.js:59 | Firing a due pending timer reaches the `Debounce.Fire` state, which is the timer phase, and keeps the invariant |
| Bootstrap.Setup | src/content.js:73-80 | Proceeds iff the widget is present; a missing widget is retried with attempts + 1 when fewer than 3 attempts were made, and given up on otherwise |
| Bootstrap.Start | src/content.js:73-80 | The chain from `setup(0)` checks 1 to 4 times, stops at the first check that finds the widget, and gives up only after 4 failed checks |

## Left out

- DOM extraction is not modelled (`getCoverElement`, `getSongElement`, `getArtistElement`, `getCover` and `getSong`, lines 19-37). The candidate record is an input.
- `getArtist` (line 51) is called but never defined, so on a real page `updateNowPlaying` would throw a ReferenceError before it merges anything. The model takes the artist value as an input like the other two rather than inventing a way to join the artist names.
- When an element is missing, `getCover` and `getSong` throw rather than yield an absent field. The model does not represent that exception path, because extraction is outside it.
- `saveNowPlaying` is not modelled byte for byte. `JSON.stringify` formatting, the file's key order, the File System Access calls (`createWritable`, `write`, `close`) and their failures are left out. Each write is recorded as the snapshot of `data` it serialises.
- Write overlap is not modelled. Writes are asynchronous and the code does not wait for one to finish before the next timer can fire, so two writes can overlap. The model treats each write as taking effect when its timer fires.
- Observer registration and `disconnect` are host APIs and are left out (lines 15-16).
- Which records reach the observer is not modelled. `observe` at line 15 watches the widget element itself, without `subtree`. So only changes to the widget's direct children (childList) and to its own attributes produce records. A characterData record targets a text node, so in practice none reaches this observer. The model accepts any batch of record kinds, and `Mutations.CharacterDataOnly` covers the case anyway. So are the `nowPlaying` query (line 62) and the `readystatechange` listener (lines 105-108), beyond the attempt count they feed into `Bootstrap.Start`.
- `startObserving` (lines 64-69) registers the observer and calls `updateNowPlaying` once. That call is `NowPlaying.Session.UpdateNowPlaying`. The registration and the console message are left out.
- The button, the click handler and the file picker are UI and are left out (lines 82-102). `writableHandle` is not modelled.
- Console output is left out (lines 44, 66 and 75).
- Real time is not modelled. Timers are a table from id to deadline over an abstract clock. `Debounce.Tick` stands for the host running whichever timers are due. The 1000 ms delays of the retry and of the first `setup` call are not modelled, only the number of checks.
- Debounce.TickRunsDue: with all timers due at the same moment, the host would run them in an order the model does not fix. Under the invariant there is never more than one, so the order cannot matter.
- Track.NonEmptyEntries: its contract says which entries survive, not that they keep their order. The record's three keys are distinct (`Track.EntriesOf`), and `Track.ContributionOf` proves the merged object key by key, so the result does not depend on the order.
- `debounceTimer` keeps a stale id after its timer has fired, as in the source. A later `clearTimeout` on that id does nothing, which `NowPlaying.Session.ClearTimeout` states.
