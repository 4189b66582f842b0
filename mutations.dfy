/**
  The relevance filter of the `MutationObserver` callback in `observeChanges`
  (src/content.js:9-13).
 */
module Mutations {

  /** The `type` of a mutation record. */
  datatype MutationKind = ChildList | Attributes | CharacterData

  /** `m.type === "childList" || m.type === "attributes"` */
  predicate IsRelevant(m: MutationKind) {
    m == ChildList || m == Attributes
  }

  /** `mutationsList.filter(...)`: the relevant records of a batch, each as often as in the
      batch, and nothing else. */
  function RelevantMutations(batch: seq<MutationKind>): (r: seq<MutationKind>)
    ensures |r| <= |batch|
    ensures forall m :: IsRelevant(m) ==> multiset(r)[m] == multiset(batch)[m]
    ensures forall m :: !IsRelevant(m) ==> m !in r
  {
    if batch == [] then []
    else
      var rest := RelevantMutations(batch[1..]);
      assert batch == [batch[0]] + batch[1..];
      if IsRelevant(batch[0]) then [batch[0]] + rest else rest
  }

  /** `relevantMutations.length` is non-zero. */
  predicate Fires(batch: seq<MutationKind>) {
    |RelevantMutations(batch)| > 0
  }

  /** A batch fires exactly when it holds a `childList` or `attributes` record. */
  lemma FiresIff(batch: seq<MutationKind>)
    ensures Fires(batch) <==> exists i :: 0 <= i < |batch| && IsRelevant(batch[i])
  {
    var r := RelevantMutations(batch);
    if Fires(batch) {
      assert r[0] in r;
      assert r[0] in multiset(batch);
    }
  }

  /** A batch of character-data records only never runs the callback. */
  lemma CharacterDataOnly(batch: seq<MutationKind>)
    requires forall i :: 0 <= i < |batch| ==> batch[i] == CharacterData
    ensures !Fires(batch)
  {
    FiresIff(batch);
  }
}
