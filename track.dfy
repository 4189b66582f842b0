/**
  The now-playing record of `updateNowPlaying` (src/content.js:47-57): the candidate
  object built from the page, the filter that keeps only its non-empty string
  entries, and the spread that merges those entries over the session's `data`.
 */
module Track {

  /** The session's `data` object: property name to string value. */
  type TrackState = map<string, string>

  /** A property value as the filter sees it: a string, or anything else
      (`undefined`, `null`, an array of names, ...). */
  datatype Value = Str(s: string) | NonString

  /** The object literal `newData` with its three properties. */
  datatype Candidate = Candidate(cover: Value, song: Value, artist: Value)

  const CoverKey: string := "cover"
  const SongKey: string := "song"
  const ArtistKey: string := "artist"
  const TrackKeys: set<string> := {CoverKey, SongKey, ArtistKey}

  /** The filter's test: `typeof value === "string" && value.length > 0`. */
  predicate IsNonEmptyString(v: Value) {
    v.Str? && |v.s| > 0
  }

  /** Every value stored in `d` is a non-empty string. */
  predicate AllNonEmpty(d: TrackState) {
    forall k :: k in d ==> |d[k]| > 0
  }

  /** The property `newData[k]`: one of the three fields, or `undefined` for any other key. */
  function Field(c: Candidate, k: string): Value {
    if k == CoverKey then c.cover
    else if k == SongKey then c.song
    else if k == ArtistKey then c.artist
    else NonString
  }

  /** `Object.entries(newData)`: the three properties in declaration order. */
  function Entries(c: Candidate): seq<(string, Value)> {
    [(CoverKey, c.cover), (SongKey, c.song), (ArtistKey, c.artist)]
  }

  /** `Object.entries(newData)` lists each of the three record keys exactly once, with
      that key's value, and nothing else. */
  lemma EntriesOf(c: Candidate)
    ensures |Entries(c)| == 3
    ensures forall k :: k in TrackKeys ==> (k, Field(c, k)) in Entries(c)
    ensures forall p :: p in Entries(c) ==> p.0 in TrackKeys && p.1 == Field(c, p.0)
    ensures forall i, j :: 0 <= i < j < |Entries(c)| ==> Entries(c)[i].0 != Entries(c)[j].0
  {
  }

  /** The entries filter, each kept value unwrapped to its string: exactly the
      entries whose value is a non-empty string survive. */
  function NonEmptyEntries(es: seq<(string, Value)>): (r: seq<(string, string)>)
    ensures |r| <= |es|
    ensures forall p :: p in r <==> (p.0, Str(p.1)) in es && |p.1| > 0
  {
    if es == [] then []
    else
      var rest := NonEmptyEntries(es[1..]);
      assert es == [es[0]] + es[1..];
      if IsNonEmptyString(es[0].1) then [(es[0].0, es[0].1.s)] + rest else rest
  }

  /** `Object.fromEntries(es)`: the keys of `es`, each bound to the value of its
      last entry. */
  function FromEntries(es: seq<(string, string)>): (m: map<string, string>)
    ensures forall k :: k in m <==> exists v :: (k, v) in es
    ensures forall k :: k in m ==> (k, m[k]) in es
  {
    if es == [] then map[]
    else
      var init := es[..|es| - 1];
      var last := es[|es| - 1];
      assert es == init + [last];
      FromEntries(init)[last.0 := last.1]
  }

  /** Some field of the candidate holds a non-empty string. */
  predicate HasNonEmpty(c: Candidate) {
    IsNonEmptyString(c.cover) || IsNonEmptyString(c.song) || IsNonEmptyString(c.artist)
  }

  /** Which keys a candidate contributes. */
  lemma ContributionKeys(c: Candidate, k: string)
    ensures k in FromEntries(NonEmptyEntries(Entries(c))) <==> IsNonEmptyString(Field(c, k))
  {
    var es := Entries(c);
    var ne := NonEmptyEntries(es);
    if IsNonEmptyString(Field(c, k)) {
      assert (k, Field(c, k)) in es;
      assert (k, Field(c, k).s) in ne;
    }
    if k in FromEntries(ne) {
      var v :| (k, v) in ne;
      assert (k, Str(v)) in es;
    }
  }

  /** The value a candidate contributes under a key. */
  lemma ContributionValue(c: Candidate, k: string)
    requires k in FromEntries(NonEmptyEntries(Entries(c)))
    ensures FromEntries(NonEmptyEntries(Entries(c)))[k] == Field(c, k).s
  {
    var es := Entries(c);
    var ne := NonEmptyEntries(es);
    var m := FromEntries(ne);
    assert (k, m[k]) in ne;
    assert (k, Str(m[k])) in es;
  }

  /** What the filter and `Object.fromEntries` make of a candidate: one binding per
      field that holds a non-empty string, and no other. */
  lemma ContributionOf(c: Candidate)
    ensures var m := FromEntries(NonEmptyEntries(Entries(c)));
      && (forall k :: k in m <==> IsNonEmptyString(Field(c, k)))
      && (forall k :: k in m ==> m[k] == Field(c, k).s)
  {
    var m := FromEntries(NonEmptyEntries(Entries(c)));
    forall k ensures k in m <==> IsNonEmptyString(Field(c, k)) {
      ContributionKeys(c, k);
    }
    forall k | k in m ensures m[k] == Field(c, k).s {
      ContributionValue(c, k);
    }
  }

  /** The merge of line 57: `{ ...data, ...Object.fromEntries(nonEmptyEntries) }`.
      A field holding a non-empty string overwrites its key, and every other key keeps
      its value. */
  function Merge(data: TrackState, c: Candidate): (r: TrackState)
    ensures forall k :: k in r <==> k in data || IsNonEmptyString(Field(c, k))
    ensures forall k :: IsNonEmptyString(Field(c, k)) ==> k in r && r[k] == Field(c, k).s
    ensures forall k :: k in data && !IsNonEmptyString(Field(c, k)) ==> k in r && r[k] == data[k]
  {
    ContributionOf(c);
    data + FromEntries(NonEmptyEntries(Entries(c)))
  }

  /** No merge removes a key, stores an empty value, or adds a key outside the record. */
  lemma MergeKeepsInvariant(data: TrackState, c: Candidate)
    ensures data.Keys <= Merge(data, c).Keys
    ensures AllNonEmpty(data) ==> AllNonEmpty(Merge(data, c))
    ensures data.Keys <= TrackKeys ==> Merge(data, c).Keys <= TrackKeys
  {
    var r := Merge(data, c);
    forall k | k in r && k !in data ensures k in TrackKeys && |r[k]| > 0 {
      assert IsNonEmptyString(Field(c, k));
    }
  }

  /** When keys repeat, `Object.fromEntries` keeps the value of the last entry. */
  lemma {:induction false} FromEntriesLastWins(es: seq<(string, string)>, i: nat)
    requires i < |es|
    requires forall j :: i < j < |es| ==> es[j].0 != es[i].0
    ensures es[i].0 in FromEntries(es) && FromEntries(es)[es[i].0] == es[i].1
    decreases |es|
  {
    if i < |es| - 1 {
      var init := es[..|es| - 1];
      forall j | i < j < |init| ensures init[j].0 != init[i].0 {
        assert init[j] == es[j];
      }
      FromEntriesLastWins(init, i);
    }
  }

  /** The early return of line 55 (`!nonEmptyEntries.length`) is taken exactly when no
      field of the candidate holds a non-empty string. */
  lemma FilterEmptyIff(c: Candidate)
    ensures |NonEmptyEntries(Entries(c))| > 0 <==> HasNonEmpty(c)
  {
    var es := NonEmptyEntries(Entries(c));
    ContributionOf(c);
    if |es| > 0 {
      assert es[0] in es;
      assert IsNonEmptyString(Field(c, es[0].0));
    }
    if HasNonEmpty(c) {
      var k := if IsNonEmptyString(c.cover) then CoverKey
        else if IsNonEmptyString(c.song) then SongKey else ArtistKey;
      assert IsNonEmptyString(Field(c, k));
      ContributionKeys(c, k);
      var m := FromEntries(es);
      assert k in m;
    }
  }

  /** A candidate has a non-empty string exactly when some key reads one. */
  lemma HasNonEmptyIff(c: Candidate)
    ensures HasNonEmpty(c) <==> exists k :: IsNonEmptyString(Field(c, k))
  {
    if HasNonEmpty(c) {
      var k := if IsNonEmptyString(c.cover) then CoverKey
        else if IsNonEmptyString(c.song) then SongKey else ArtistKey;
      assert IsNonEmptyString(Field(c, k));
    }
  }

  /** A candidate that contributes nothing leaves `data` as it was. */
  lemma MergeNothing(data: TrackState, c: Candidate)
    requires !HasNonEmpty(c)
    ensures Merge(data, c) == data
  {
    HasNonEmptyIff(c);
  }
}
