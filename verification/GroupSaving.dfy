/** What saving a group comes to, stated on the store itself: which batches are accepted, what stands for
    every feature afterwards, and what the choice between raising and retrieving changes
    (featurebyte/worker/task/batch_feature_create.py, featurebyte/service/feature_list.py). */
module GroupSaving {
  import opened FeatureListReload
  import opened Sequences
  import opened Wrappers

  /** When conflicts raise, the first n features are dealt with exactly when none of those whose id is not
      saved has a name that is known or an id or a name of an earlier one of them. */
  lemma RaisingIff(store: Store, features: seq<Feature>, n: nat)
    requires Named(features) && n <= |features|
    ensures Creatable(store, features, false, n) <==>
            forall i :: 0 <= i < n && features[i].id !in store.features ==>
              && features[i].name.value !in store.defaults
              && forall j :: 0 <= j < i && features[j].id !in store.features ==>
                   features[j].id != features[i].id && features[j].name != features[i].name
  {
    if Creatable(store, features, false, n) {
      forall i | 0 <= i < n && features[i].id !in store.features
        ensures features[i].name.value !in store.defaults
        ensures forall j :: 0 <= j < i && features[j].id !in store.features ==>
                  features[j].id != features[i].id && features[j].name != features[i].name
      {
        assert !NameTaken(store, features[i], false);
        assert forall j :: 0 <= j < i ==> !Clash(store, features[j], features[i], false);
      }
    }
  }

  /** With retrieval only the features whose id is not saved and whose name is not known are held against
      each other. */
  lemma RetrievingIff(store: Store, features: seq<Feature>, n: nat)
    requires Named(features) && n <= |features|
    ensures Creatable(store, features, true, n) <==>
            forall i, j :: 0 <= j < i < n
              && features[i].id !in store.features && features[i].name.value !in store.defaults
              && features[j].id !in store.features && features[j].name.value !in store.defaults
              ==> features[j].id != features[i].id && features[j].name != features[i].name
  {
    if Creatable(store, features, true, n) {
      forall i, j | 0 <= j < i < n
        && features[i].id !in store.features && features[i].name.value !in store.defaults
        && features[j].id !in store.features && features[j].name.value !in store.defaults
        ensures features[j].id != features[i].id && features[j].name != features[i].name
      {
        assert !Clash(store, features[j], features[i], true);
      }
    }
  }

  /** The features and their ids in the result: what is stored under a saved id; else with retrieval the
      default version of a known name; else the feature itself. */
  lemma StandIns(store: Store, features: seq<Feature>, retrieve: bool, i: nat)
    requires store.Valid() && Named(features) && i < |features|
    ensures var f, all := features[i], ResolvedAll(store, features, retrieve);
            && |all| == |IdsOf(all)| == |features|
            && IdsOf(all)[i] == all[i].id
            && (f.id in store.features ==> all[i] == store.features[f.id] && all[i].id == f.id)
            && (f.id !in store.features && retrieve && f.name.value in store.defaults ==>
                  all[i].id == store.defaults[f.name.value] && all[i] == store.features[all[i].id])
            && (f.id !in store.features && (!retrieve || f.name.value !in store.defaults) ==> all[i] == f)
  {
  }

  /** Among the first n features, the i-th has an id that is not saved, and a name that is not known
      where known names are retrieved. */
  predicate Brings(store: Store, features: seq<Feature>, retrieve: bool, n: nat, i: nat)
    requires Named(features) && n <= |features|
  {
    i < n && features[i].id !in store.features && (retrieve ==> features[i].name.value !in store.defaults)
  }

  /** What was stored stays: every id keeps its feature and every name its default version. */
  lemma {:induction false} OldOnesStay(store: Store, features: seq<Feature>, retrieve: bool, n: nat)
    requires Named(features) && n <= |features| && Creatable(store, features, retrieve, n)
    ensures var after := StoreAfter(store, features, retrieve, n);
            && (forall id <- store.features :: id in after.features && after.features[id] == store.features[id])
            && (forall x <- store.defaults :: x in after.defaults && after.defaults[x] == store.defaults[x])
  {
    if n > 0 {
      OldOnesStay(store, features, retrieve, n - 1);
      assert !NameTaken(store, features[n - 1], retrieve);
    }
  }

  /** What is stored besides: the features that the batch brings, under their ids, and as the default
      versions of their names. */
  lemma {:induction false} BroughtOnes(store: Store, features: seq<Feature>, retrieve: bool, n: nat, i: nat)
    requires Named(features) && n <= |features| && Creatable(store, features, retrieve, n)
    requires Brings(store, features, retrieve, n, i)
    ensures var after := StoreAfter(store, features, retrieve, n);
            && features[i].id in after.features && after.features[features[i].id] == features[i]
            && features[i].name.value in after.defaults
            && after.defaults[features[i].name.value] == features[i].id
  {
    if i < n - 1 {
      BroughtOnes(store, features, retrieve, n - 1, i);
      assert !Clash(store, features[i], features[n - 1], retrieve);
    }
  }

  /** And nothing else is. */
  lemma {:induction false} OnlyBroughtOnes(store: Store, features: seq<Feature>, retrieve: bool, n: nat)
    requires Named(features) && n <= |features|
    ensures var after := StoreAfter(store, features, retrieve, n);
            && (forall id <- after.features :: id !in store.features ==>
                  exists i: nat :: Brings(store, features, retrieve, n, i) && features[i].id == id)
            && (forall x <- after.defaults :: x !in store.defaults ==>
                  exists i: nat :: Brings(store, features, retrieve, n, i) && features[i].name == Some(x))
  {
    var after := StoreAfter(store, features, retrieve, n);
    forall id | id in after.features && id !in store.features
      ensures exists i: nat :: Brings(store, features, retrieve, n, i) && features[i].id == id
    {
      IdAfter(store, features, retrieve, n, id);
      var i :| 0 <= i < n && ToCreate(store, features[i], retrieve) && features[i].id == id;
      assert Brings(store, features, retrieve, n, i);
    }
    forall x | x in after.defaults && x !in store.defaults
      ensures exists i: nat :: Brings(store, features, retrieve, n, i) && features[i].name == Some(x)
    {
      NameAfter(store, features, retrieve, n, x);
      var i :| 0 <= i < n && ToCreate(store, features[i], retrieve) && features[i].name == Some(x);
      assert Brings(store, features, retrieve, n, i);
    }
  }

  /** With retrieval a feature that is not saved and whose name is known is replaced by the default
      version of that name. Its own id is added only if another feature brings it along, and the batch
      never stops at it. */
  lemma KnownNameIsRetrieved(store: Store, features: seq<Feature>, i: nat)
    requires store.Valid() && Named(features) && i < |features|
    requires features[i].id !in store.features && features[i].name.value in store.defaults
    ensures IdsOf(ResolvedAll(store, features, true))[i] == store.defaults[features[i].name.value]
    ensures Creatable(store, features, true, i) ==> Creatable(store, features, true, i + 1)
    ensures FirstRefused(store, features, true) != i
    ensures Creatable(store, features, true, |features|)
            && (forall j :: 0 <= j < |features| && j != i ==> features[j].id != features[i].id)
            ==> features[i].id !in StoreAfter(store, features, true, |features|).features
  {
    StandIns(store, features, true, i);
    RetrievingIff(store, features, i);
    RetrievingIff(store, features, i + 1);
    if Creatable(store, features, true, |features|) {
      OnlyBroughtOnes(store, features, true, |features|);
      assert forall j: nat :: Brings(store, features, true, |features|, j) ==> j != i;
    }
  }

  /** Without retrieval it makes the save fail, whatever else the group has, and nothing from it on is
      created. */
  lemma KnownNameIsRefused(store: Store, features: seq<Feature>, i: nat)
    requires store.Valid() && Named(features) && i < |features|
    requires features[i].id !in store.features && features[i].name.value in store.defaults
    ensures !Creatable(store, features, false, |features|) && !Saves(store, features, false)
    ensures FirstRefused(store, features, false) <= i
  {
    RaisingIff(store, features, |features|);
    RaisingIff(store, features, i + 1);
    if FirstRefused(store, features, false) > i {
      RaisingIff(store, features, FirstRefused(store, features, false));
    }
  }

  predicate NoKnownNames(store: Store, features: seq<Feature>)
    requires Named(features)
  {
    forall i :: 0 <= i < |features| ==>
      features[i].id in store.features || features[i].name.value !in store.defaults
  }

  lemma {:induction false} SameStore(store: Store, features: seq<Feature>, n: nat)
    requires Named(features) && n <= |features| && NoKnownNames(store, features)
    ensures StoreAfter(store, features, true, n) == StoreAfter(store, features, false, n)
  {
    if n > 0 {
      assert ToCreate(store, features[n - 1], true) == ToCreate(store, features[n - 1], false);
      SameStore(store, features, n - 1);
    }
  }

  lemma SameCreatable(store: Store, features: seq<Feature>, n: nat)
    requires Named(features) && n <= |features| && NoKnownNames(store, features)
    ensures Creatable(store, features, true, n) == Creatable(store, features, false, n)
  {
    assert forall i :: 0 <= i < n ==> ToCreate(store, features[i], true) == ToCreate(store, features[i], false);
  }

  lemma SameRefused(store: Store, features: seq<Feature>)
    requires Named(features) && NoKnownNames(store, features)
    ensures FirstRefused(store, features, true) == FirstRefused(store, features, false)
  {
    var k := FirstRefused(store, features, true);
    SameCreatable(store, features, k);
    if k < |features| { SameCreatable(store, features, k + 1); }
    FirstRefusedIs(store, features, false, k);
  }

  lemma SameResolved(store: Store, features: seq<Feature>)
    requires store.Valid() && Named(features) && NoKnownNames(store, features)
    ensures forall i :: 0 <= i < |features| ==>
              Resolved(store, features[i], true) == Resolved(store, features[i], false)
    ensures ResolvedAll(store, features, true) == ResolvedAll(store, features, false)
  {
  }

  /** Where no unsaved feature has a known name, raising and retrieving do the same. */
  lemma ChoiceIsIrrelevant(store: Store, features: seq<Feature>)
    requires store.Valid() && Named(features) && NoKnownNames(store, features)
    ensures ResolvedAll(store, features, true) == ResolvedAll(store, features, false)
    ensures var k := FirstRefused(store, features, true);
            && k == FirstRefused(store, features, false)
            && StoreAfter(store, features, true, k) == StoreAfter(store, features, false, k)
    ensures Saves(store, features, true) == Saves(store, features, false)
  {
    SameResolved(store, features);
    SameRefused(store, features);
    SameStore(store, features, FirstRefused(store, features, true));
    SameCreatable(store, features, |features|);
  }

  /** A group is saved exactly when it is not empty, its batch is accepted, and what stands for its
      features in the end is of one feature store and of distinct names. */
  lemma SavesIff(store: Store, features: seq<Feature>, retrieve: bool, final: seq<Feature>)
    requires store.Valid() && Named(features) && |final| == |features|
    requires forall i :: 0 <= i < |features| ==>
               final[i] == if features[i].id in store.features then store.features[features[i].id]
                           else if retrieve && features[i].name.value in store.defaults
                           then store.features[store.defaults[features[i].name.value]]
                           else features[i]
    ensures Saves(store, features, retrieve) <==>
            && |features| > 0 && Creatable(store, features, retrieve, |features|)
            && forall i, j :: 0 <= i < j < |final| ==>
                 final[i].featureStore == final[j].featureStore && final[i].name != final[j].name
  {
    var all := ResolvedAll(store, features, retrieve);
    forall i | 0 <= i < |features| ensures all[i] == Resolved(store, features[i], retrieve) == final[i] {
      StandIns(store, features, retrieve, i);
    }
  }
}
