/**
 * The per-tileset index `dbIdToFeatures`: DbId to the list of loaded
 * features carrying that DbId, kept in step with tile loading and unloading.
 */
module FeatureIndex {
  import opened JsArrays

  /** The bookkeeping kept per attached tileset. */
  datatype TilesetInfo<F> = TilesetInfo(dbIdToFeatures: map<int, seq<F>>, hiddenDbIds: seq<int>)

  /** The list under `dbId`, or the empty list when the key is absent. */
  function FeaturesOf<F>(index: map<int, seq<F>>, dbId: int): seq<F> {
    if dbId in index then index[dbId] else []
  }

  /** Loading a feature: create the list if absent, then push the feature onto it. */
  function Appended<F>(index: map<int, seq<F>>, dbId: int, f: F): (r: map<int, seq<F>>)
    ensures r.Keys == index.Keys + {dbId}
    ensures r[dbId] == FeaturesOf(index, dbId) + [f]
    ensures forall k :: k in index && k != dbId ==> r[k] == index[k]
  {
    index[dbId := FeaturesOf(index, dbId) + [f]]
  }

  /**
   * The predicate `item => item.feature === feature` applied to an element of
   * the list, which is a feature and not a record: a feature has no `feature`
   * property, so the comparison is always false.
   */
  function NoFeatureProperty<F>(): F -> bool {
    (item: F) => false
  }

  /**
   * Unloading, as written: `features.splice(features.findIndex(...), 1)` with
   * the predicate above. The search never succeeds, so the index is -1.
   */
  function RemovedAsWritten<F>(index: map<int, seq<F>>, dbId: int): (r: map<int, seq<F>>)
    requires dbId in index
    ensures r.Keys == index.Keys
    ensures forall k :: k in index && k != dbId ==> r[k] == index[k]
    ensures multiset(r[dbId]) <= multiset(index[dbId])
  {
    var features := index[dbId];
    index[dbId := SpliceOne(features, FindIndex(features, NoFeatureProperty()))]
  }

  /**
   * Whatever feature is unloaded, the list under its DbId loses its LAST
   * element (and an empty list stays empty).
   */
  lemma UnloadDropsLast<F>(index: map<int, seq<F>>, dbId: int)
    requires dbId in index
    ensures var s := index[dbId];
      RemovedAsWritten(index, dbId)[dbId] == if s == [] then [] else s[..|s| - 1]
  {
    var s := index[dbId];
    assert FindIndex(s, NoFeatureProperty()) == -1;
    SpliceNotFound(s);
  }

  /**
   * An unload that directly follows the load of the same DbId undoes it: the
   * feature just pushed is the last element.
   */
  lemma LoadThenUnload<F>(index: map<int, seq<F>>, dbId: int, f: F)
    ensures RemovedAsWritten(Appended(index, dbId, f), dbId) == index[dbId := FeaturesOf(index, dbId)]
  {
    var loaded := Appended(index, dbId, f);
    UnloadDropsLast(loaded, dbId);
    assert (FeaturesOf(index, dbId) + [f])[..|FeaturesOf(index, dbId)|] == FeaturesOf(index, dbId);
  }

  /**
   * The consequence for an earlier feature: with `a` loaded before `b` under
   * one DbId, unloading `a` keeps `a` in the index and drops `b`.
   */
  lemma UnloadOfEarlierFeatureKeepsIt<F>(index: map<int, seq<F>>, dbId: int, a: F, b: F)
    requires dbId in index && index[dbId] == [a, b]
    ensures RemovedAsWritten(index, dbId)[dbId] == [a]
  {
    UnloadDropsLast(index, dbId);
  }
}
