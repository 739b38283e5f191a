/** Saving a group of features and reloading it: what the server stores, how the client pages through
    its listing in whatever order it comes, and how it restores the list's own order
    (featurebyte/api/feature_group.py, feature_list.py, featurebyte/worker/task/batch_feature_create.py,
    featurebyte/service/feature_list.py). */
module FeatureListReload {
  import opened Pagination
  import opened Sequences
  import opened Wrappers
  import G = FeatureGroups

  type Feature = G.Feature
  type FeatureObjects = G.FeatureObjects

  /** The dictionary built while paging: a later record of one id replaces an earlier one. */
  function ById(listing: seq<Feature>): map<nat, Feature> {
    if listing == [] then map[]
    else ById(listing[..|listing| - 1])[listing[|listing| - 1].id := listing[|listing| - 1]]
  }

  predicate AllListed(byId: map<nat, Feature>, ids: seq<nat>) {
    forall i :: 0 <= i < |ids| ==> ids[i] in byId
  }

  function ItemsOf(byId: map<nat, Feature>, ids: seq<nat>): seq<Feature>
    requires AllListed(byId, ids)
  {
    seq(|ids|, i requires 0 <= i < |ids| => byId[ids[i]])
  }

  /** Features put into the dictionary one after the other under their names. */
  function PutAll(items: seq<Feature>): FeatureObjects {
    if items == [] then []
    else
      var f := items[|items| - 1];
      G.Put(PutAll(items[..|items| - 1]), f.name.GetOr(""), f)
  }

  /** `_initialize_items_and_feature_objects_from_persistent` against an unchanging listing. The
      result does not depend on the page size. */
  method Initialize(listing: seq<Feature>, pageSize: nat, ids: seq<nat>)
    returns (r: Result<(seq<Feature>, FeatureObjects)>)
    requires pageSize >= 1 && forall i :: 0 <= i < |listing| ==> listing[i].name.Some?
    ensures r == if AllListed(ById(listing), ids) then
                   var items := ItemsOf(ById(listing), ids); Success((items, PutAll(items)))
                 else Failure(KeyError)
  {
    var records, _ := ListAll(listing, pageSize);
    var byId := map[];
    for i := 0 to |records|
      invariant byId == ById(records[..i])
    {
      assert records[..i + 1][..i] == records[..i];
      byId := byId[records[i].id := records[i]];
    }
    assert records[..|records|] == listing;
    var items, objects := [], [];
    for i := 0 to |ids|
      invariant forall j :: 0 <= j < i ==> ids[j] in byId
      invariant items == seq(i, j requires 0 <= j < i => byId[ids[j]])
      invariant objects == PutAll(items)
    {
      if ids[i] !in byId {
        return Failure(KeyError);
      }
      var feature := byId[ids[i]];
      assert (items + [feature])[..i] == items;
      objects := G.Put(objects, feature.name.GetOr(""), feature);
      items := items + [feature];
    }
    assert items == ItemsOf(byId, ids);
    r := Success((items, objects));
  }

  /** `FeatureList.__init__` on a retrieved record: reload, then flatten the reloaded items again. */
  method InitFeatureList(listing: seq<Feature>, pageSize: nat, ids: seq<nat>) returns (r: Result<FeatureObjects>)
    requires pageSize >= 1 && forall i :: 0 <= i < |listing| ==> listing[i].name.Some?
    ensures r == if AllListed(ById(listing), ids) then G.Construct(G.Singles(ItemsOf(ById(listing), ids)))
                 else Failure(KeyError)
  {
    var loaded := Initialize(listing, pageSize, ids);
    if loaded.Failure? {
      return Failure(loaded.error);
    }
    G.FlattenedIsConstruct(G.Singles(loaded.value.0));
    r := G.FlattenItems(G.Singles(loaded.value.0));
  }

  lemma {:induction false} ByIdMembers(listing: seq<Feature>)
    ensures forall id <- ById(listing) :: ById(listing)[id] in listing && ById(listing)[id].id == id
    ensures forall f <- listing :: f.id in ById(listing)
  {
    if listing != [] {
      ByIdMembers(listing[..|listing| - 1]);
      assert listing == listing[..|listing| - 1] + [listing[|listing| - 1]];
    }
  }

  /** What saving a group sends: its features and their ids, in order. */
  function Features(objects: FeatureObjects): seq<Feature> {
    seq(|objects|, i requires 0 <= i < |objects| => objects[i].1)
  }

  function Ids(objects: FeatureObjects): seq<nat> {
    seq(|objects|, i requires 0 <= i < |objects| => objects[i].1.id)
  }

  predicate DistinctIds(listing: seq<Feature>) {
    forall i, j :: 0 <= i < j < |listing| ==> listing[i].id != listing[j].id
  }

  lemma {:induction false} ByIdFinds(listing: seq<Feature>, f: Feature)
    requires DistinctIds(listing) && f in listing
    ensures f.id in ById(listing) && ById(listing)[f.id] == f
  {
    ByIdMembers(listing);
    var g := ById(listing)[f.id];
    var i :| 0 <= i < |listing| && listing[i] == f;
    var j :| 0 <= j < |listing| && listing[j] == g;
    assert i == j;
  }

  lemma {:induction false} PutAllInOrder(objects: FeatureObjects)
    requires G.Valid(objects)
    ensures PutAll(Features(objects)) == objects
  {
    if objects != [] {
      var n := |objects| - 1;
      var front := objects[..n];
      assert G.Keys(front) == G.Keys(objects)[..n];
      PutAllInOrder(front);
      assert Features(objects)[..n] == Features(front);
      forall i | 0 <= i < n ensures G.Keys(front)[i] != objects[n].0 {
        assert G.Keys(objects)[i] != G.Keys(objects)[n];
      }
      assert front + [objects[n]] == objects;
    }
  }

  lemma ConstructsAgain(objects: FeatureObjects)
    requires G.Valid(objects) && DistinctIds(Features(objects))
    ensures G.Construct(G.Singles(Features(objects))) == Success(objects)
  {
    G.SinglesLeaves(Features(objects));
    var leaves := G.Leaves(G.Singles(Features(objects)));
    assert G.ObjectsOf(leaves) == objects;
    forall i, j | 0 <= i < j < |leaves| ensures leaves[i].feature.name != leaves[j].feature.name {
      assert G.Keys(objects)[i] != G.Keys(objects)[j];
    }
  }

  /** Features with distinct names and ids come back from any listing that contains them, in any order
      and among any others: the same features under the same names in the same order, both in a group
      and in a feature list made of it. */
  lemma ReloadRoundTrip(objects: FeatureObjects, listing: seq<Feature>)
    requires G.Valid(objects) && DistinctIds(Features(objects)) && DistinctIds(listing)
    requires forall f <- Features(objects) :: f in listing
    ensures AllListed(ById(listing), Ids(objects))
    ensures var items := ItemsOf(ById(listing), Ids(objects));
            && items == Features(objects) && PutAll(items) == objects
            && G.Construct(G.Singles(items)) == Success(objects)
  {
    forall i | 0 <= i < |objects|
      ensures Ids(objects)[i] in ById(listing) && ById(listing)[Ids(objects)[i]] == Features(objects)[i]
    {
      assert Features(objects)[i] in listing;
      ByIdFinds(listing, Features(objects)[i]);
    }
    assert ItemsOf(ById(listing), Ids(objects)) == Features(objects);
    PutAllInOrder(objects);
    ConstructsAgain(objects);
  }

  /** The features the server stores, and for every name the id of its default version. */
  datatype Store = Store(features: map<nat, Feature>, defaults: map<string, nat>) {
    predicate Valid() {
      && (forall id <- features :: features[id].id == id)
      && (forall id <- features :: features[id].name.Some? && features[id].name.value in defaults)
      && (forall name <- defaults :: defaults[name] in features && features[defaults[name]].name == Some(name))
    }

    function Creating(f: Feature): Store {
      Store(features[f.id := f], defaults[f.name.GetOr("") := f.id])
    }
  }

  predicate Named(features: seq<Feature>) {
    forall i :: 0 <= i < |features| ==> features[i].name.Some?
  }

  /** Neither saved before nor replaced by a stored feature of its name. */
  predicate ToCreate(store: Store, f: Feature, retrieve: bool) {
    f.id !in store.features && !(retrieve && f.name.GetOr("") in store.defaults)
  }

  /** The stored feature that stands for `f` in the end: a feature whose id is saved is skipped, and
      with retrieval the default version of its name takes its place. */
  function Resolved(store: Store, f: Feature, retrieve: bool): Feature
    requires store.Valid()
  {
    if f.id in store.features then store.features[f.id]
    else if ToCreate(store, f, retrieve) then f
    else store.features[store.defaults[f.name.GetOr("")]]
  }

  function ResolvedAll(store: Store, features: seq<Feature>, retrieve: bool): seq<Feature>
    requires store.Valid()
  {
    seq(|features|, i requires 0 <= i < |features| => Resolved(store, features[i], retrieve))
  }

  function IdsOf(features: seq<Feature>): seq<nat> {
    seq(|features|, i requires 0 <= i < |features| => features[i].id)
  }

  /** The store after the first n features were dealt with. */
  function StoreAfter(store: Store, features: seq<Feature>, retrieve: bool, n: nat): Store
    requires n <= |features|
  {
    if n == 0 then store
    else
      var before := StoreAfter(store, features, retrieve, n - 1);
      if ToCreate(store, features[n - 1], retrieve) then before.Creating(features[n - 1]) else before
  }

  /** Both are to be created, and one of them takes the other's id or name. */
  predicate Clash(store: Store, f: Feature, g: Feature, retrieve: bool) {
    ToCreate(store, f, retrieve) && ToCreate(store, g, retrieve) && (f.id == g.id || f.name == g.name)
  }

  predicate NameTaken(store: Store, f: Feature, retrieve: bool) {
    ToCreate(store, f, retrieve) && f.name.GetOr("") in store.defaults
  }

  /** No creation among the first n features meets a name or an id that is taken by then. */
  predicate Creatable(store: Store, features: seq<Feature>, retrieve: bool, n: nat)
    requires n <= |features|
  {
    && (forall i :: 0 <= i < n ==> !NameTaken(store, features[i], retrieve))
    && (forall i, j :: 0 <= i < j < n ==> !Clash(store, features[i], features[j], retrieve))
  }

  lemma {:induction false} IdAfter(store: Store, features: seq<Feature>, retrieve: bool, n: nat, id: nat)
    requires n <= |features|
    ensures id in StoreAfter(store, features, retrieve, n).features <==>
            (id in store.features
             || exists i :: 0 <= i < n && ToCreate(store, features[i], retrieve) && features[i].id == id)
  {
    if n > 0 { IdAfter(store, features, retrieve, n - 1, id); }
  }

  lemma {:induction false} NameAfter(store: Store, features: seq<Feature>, retrieve: bool, n: nat, name: string)
    requires n <= |features| && Named(features)
    ensures name in StoreAfter(store, features, retrieve, n).defaults <==>
            (name in store.defaults
             || exists i :: 0 <= i < n && ToCreate(store, features[i], retrieve) && features[i].name == Some(name))
  {
    if n > 0 { NameAfter(store, features, retrieve, n - 1, name); }
  }

  /** What is stored stays. */
  lemma {:induction false} StoredStays(store: Store, features: seq<Feature>, retrieve: bool, n: nat, id: nat)
    requires n <= |features| && id in store.features
    ensures var after := StoreAfter(store, features, retrieve, n);
            id in after.features && after.features[id] == store.features[id]
  {
    if n > 0 { StoredStays(store, features, retrieve, n - 1, id); }
  }

  /** Every feature's stand-in is there once the feature was dealt with. */
  lemma {:induction false} StandInIsThere(store: Store, features: seq<Feature>, retrieve: bool, n: nat, i: nat)
    requires store.Valid() && i < n <= |features| && Creatable(store, features, retrieve, n)
    ensures var after, f := StoreAfter(store, features, retrieve, n), Resolved(store, features[i], retrieve);
            f.id in after.features && after.features[f.id] == f
  {
    var f := Resolved(store, features[i], retrieve);
    if !ToCreate(store, features[i], retrieve) {
      StoredStays(store, features, retrieve, n, f.id);
    } else if i < n - 1 {
      StandInIsThere(store, features, retrieve, n - 1, i);
      assert !Clash(store, features[i], features[n - 1], retrieve);
    }
  }

  lemma CreatingKeepsValid(store: Store, f: Feature)
    requires store.Valid() && f.name.Some? && f.id !in store.features && f.name.value !in store.defaults
    ensures store.Creating(f).Valid()
  {
  }

  /** A feature to be created finds its id or name taken exactly when one of the creations fails. */
  lemma TakenBefore(store: Store, features: seq<Feature>, retrieve: bool, n: nat)
    requires n < |features| && Named(features) && Creatable(store, features, retrieve, n)
    requires ToCreate(store, features[n], retrieve)
    ensures var before, f := StoreAfter(store, features, retrieve, n), features[n];
            f.id in before.features || f.name.value in before.defaults
            <==> !Creatable(store, features, retrieve, n + 1)
  {
    var f := features[n];
    IdAfter(store, features, retrieve, n, f.id);
    NameAfter(store, features, retrieve, n, f.name.value);
    if i :| 0 <= i < n && Clash(store, features[i], f, retrieve) {
      assert features[i].id == f.id || features[i].name == Some(f.name.value);
    } else if !NameTaken(store, f, retrieve) {
      assert Creatable(store, features, retrieve, n + 1);
      forall i | 0 <= i < n && ToCreate(store, features[i], retrieve)
        ensures features[i].id != f.id && features[i].name != f.name
      {
        assert !Clash(store, features[i], f, retrieve);
      }
    }
  }

  lemma {:induction false} StoreStaysValid(store: Store, features: seq<Feature>, retrieve: bool, n: nat)
    requires store.Valid() && n <= |features| && Named(features) && Creatable(store, features, retrieve, n)
    ensures StoreAfter(store, features, retrieve, n).Valid()
  {
    if n > 0 {
      StoreStaysValid(store, features, retrieve, n - 1);
      if ToCreate(store, features[n - 1], retrieve) {
        TakenBefore(store, features, retrieve, n - 1);
        CreatingKeepsValid(StoreAfter(store, features, retrieve, n - 1), features[n - 1]);
      }
    }
  }

  /** How many of the features from the n-th on are dealt with before a creation fails, n included. */
  function Dealt(store: Store, features: seq<Feature>, retrieve: bool, n: nat): (k: nat)
    requires n <= |features| && Creatable(store, features, retrieve, n)
    ensures n <= k <= |features| && Creatable(store, features, retrieve, k)
    ensures k < |features| ==> !Creatable(store, features, retrieve, k + 1)
    decreases |features| - n
  {
    if n == |features| || !Creatable(store, features, retrieve, n + 1) then n
    else Dealt(store, features, retrieve, n + 1)
  }

  /** The features before the first one that cannot be created. */
  function FirstRefused(store: Store, features: seq<Feature>, retrieve: bool): nat {
    Dealt(store, features, retrieve, 0)
  }

  lemma FirstRefusedIs(store: Store, features: seq<Feature>, retrieve: bool, k: nat)
    requires k <= |features| && Creatable(store, features, retrieve, k)
    requires k < |features| ==> !Creatable(store, features, retrieve, k + 1)
    ensures FirstRefused(store, features, retrieve) == k
  {
  }

  lemma OneMoreResolved(store: Store, features: seq<Feature>, retrieve: bool, i: nat)
    requires store.Valid() && i < |features|
    ensures IdsOf(ResolvedAll(store, features[..i + 1], retrieve))
            == IdsOf(ResolvedAll(store, features[..i], retrieve)) + [Resolved(store, features[i], retrieve).id]
  {
  }

  /** `batch_feature_create`: which ids and names are known is looked up once, before the loop; a
      creation that meets a taken id or name raises, and what was created before stays. */
  method BatchFeatureCreate(store: Store, features: seq<Feature>, retrieve: bool)
    returns (r: Result<seq<nat>>, after: Store)
    requires store.Valid() && Named(features)
    ensures r.Success? <==> Creatable(store, features, retrieve, |features|)
    ensures r.Success? ==> r.value == IdsOf(ResolvedAll(store, features, retrieve))
    ensures after == StoreAfter(store, features, retrieve, FirstRefused(store, features, retrieve))
    ensures r.Failure? ==> r.error == RecordCreationException
  {
    var ids := [];
    after := store;
    for i := 0 to |features|
      invariant Creatable(store, features, retrieve, i)
      invariant after == StoreAfter(store, features, retrieve, i)
      invariant ids == IdsOf(ResolvedAll(store, features[..i], retrieve))
    {
      var f := features[i];
      OneMoreResolved(store, features, retrieve, i);
      var id := f.id;
      if f.id !in store.features {
        if retrieve && f.name.value in store.defaults {
          id := store.defaults[f.name.value];
        } else {
          TakenBefore(store, features, retrieve, i);
          if f.id in after.features || f.name.value in after.defaults {
            FirstRefusedIs(store, features, retrieve, i);
            return Failure(RecordCreationException), after;
          }
          after := after.Creating(f);
        }
      }
      ids := ids + [id];
    }
    assert features[..|features|] == features;
    FirstRefusedIs(store, features, retrieve, |features|);
    r := Success(ids);
  }

  /** The features are stored and come from one feature store, and no two have one name. */
  predicate Listable(store: Store, ids: seq<nat>) {
    && ids != [] && (forall i :: 0 <= i < |ids| ==> ids[i] in store.features)
    && (forall i :: 0 <= i < |ids| ==>
          store.features[ids[i]].featureStore == store.features[ids[0]].featureStore)
    && (forall i, j :: 0 <= i < j < |ids| ==> store.features[ids[i]].name != store.features[ids[j]].name)
  }

  /** `create_feature_list` */
  method CreateFeatureList(store: Store, ids: seq<nat>) returns (r: Result<()>)
    requires store.Valid()
    ensures r.Success? <==> Listable(store, ids)
    ensures r.Failure? ==> r.error == RecordCreationException
  {
    if ids == [] {
      return Failure(RecordCreationException);
    }
    var names: set<Option<string>> := {};
    var featureStore: Option<nat> := None;
    for i := 0 to |ids|
      invariant forall k :: 0 <= k < i ==> ids[k] in store.features
      invariant featureStore == if i == 0 then None else Some(store.features[ids[0]].featureStore)
      invariant forall k :: 0 <= k < i ==>
                  store.features[ids[k]].featureStore == store.features[ids[0]].featureStore
      invariant names == set k | 0 <= k < i :: store.features[ids[k]].name
      invariant forall j, k :: 0 <= j < k < i ==> store.features[ids[j]].name != store.features[ids[k]].name
    {
      if ids[i] !in store.features {
        return Failure(RecordCreationException);
      }
      var feature := store.features[ids[i]];
      if featureStore.Some? && featureStore.value != feature.featureStore {
        return Failure(RecordCreationException);
      }
      featureStore := Some(feature.featureStore);
      var name := feature.name;
      if name in names {
        return Failure(RecordCreationException);
      }
      names := names + {name};
    }
    r := Success(());
  }

  predicate OneFeatureStore(features: seq<Feature>) {
    forall i :: 0 <= i < |features| ==> features[i].featureStore == features[0].featureStore
  }

  /** The save is accepted. */
  predicate Saves(store: Store, features: seq<Feature>, retrieve: bool)
    requires store.Valid()
  {
    && features != [] && Creatable(store, features, retrieve, |features|)
    && OneFeatureStore(ResolvedAll(store, features, retrieve))
    && forall i, j :: 0 <= i < j < |features| ==>
         Resolved(store, features[i], retrieve).name != Resolved(store, features[j], retrieve).name
  }

  /** Once all features are dealt with, the list is accepted exactly when their stand-ins' names differ
      and they come from one feature store. */
  lemma ListableIff(store: Store, features: seq<Feature>, retrieve: bool)
    requires store.Valid() && Creatable(store, features, retrieve, |features|)
    ensures Listable(StoreAfter(store, features, retrieve, |features|), IdsOf(ResolvedAll(store, features, retrieve)))
            <==> Saves(store, features, retrieve)
  {
    var after, ids := StoreAfter(store, features, retrieve, |features|), IdsOf(ResolvedAll(store, features, retrieve));
    forall i | 0 <= i < |features|
      ensures ids[i] in after.features && after.features[ids[i]] == Resolved(store, features[i], retrieve)
    {
      StandInIsThere(store, features, retrieve, |features|, i);
    }
  }

  /** A listing of the list's features, in any order and among any other stored ones. */
  predicate Lists(listing: seq<Feature>, store: Store, ids: seq<nat>) {
    && DistinctIds(listing)
    && (forall f <- listing :: f.id in store.features && store.features[f.id] == f)
    && (forall i :: 0 <= i < |ids| ==> exists f <- listing :: f.id == ids[i])
  }

  predicate ListsAfter(listing: seq<Feature>, store: Store, features: seq<Feature>, retrieve: bool)
    requires store.Valid()
  {
    Lists(listing, StoreAfter(store, features, retrieve, |features|), IdsOf(ResolvedAll(store, features, retrieve)))
  }

  /** The group that the stored features make under their own names. */
  function Entries(features: seq<Feature>): FeatureObjects {
    seq(|features|, i requires 0 <= i < |features| => (features[i].name.GetOr(""), features[i]))
  }

  predicate DistinctNames(features: seq<Feature>) {
    forall i, j :: 0 <= i < j < |features| ==> features[i].name != features[j].name
  }

  lemma EntriesAreValid(features: seq<Feature>)
    requires Named(features) && DistinctNames(features)
    ensures G.Valid(Entries(features)) && Features(Entries(features)) == features
  {
    assert forall i :: 0 <= i < |features| ==> Some(G.Keys(Entries(features))[i]) == features[i].name;
  }

  lemma ResolvedIsValid(store: Store, features: seq<Feature>, retrieve: bool)
    requires store.Valid() && Named(features) && Saves(store, features, retrieve)
    ensures var stored := ResolvedAll(store, features, retrieve);
            G.Valid(Entries(stored)) && DistinctIds(stored) && Features(Entries(stored)) == stored
  {
    var stored, after := ResolvedAll(store, features, retrieve), StoreAfter(store, features, retrieve, |features|);
    forall i | 0 <= i < |stored| ensures stored[i].id in after.features && after.features[stored[i].id] == stored[i] {
      StandInIsThere(store, features, retrieve, |features|, i);
    }
    forall i, j | 0 <= i < j < |stored| ensures stored[i].name != stored[j].name {
      assert Resolved(store, features[i], retrieve).name != Resolved(store, features[j], retrieve).name;
    }
    forall i, j | 0 <= i < j < |stored| ensures stored[i].id != stored[j].id {
      assert stored[i].name != stored[j].name;
    }
    forall i | 0 <= i < |stored| ensures stored[i].name.Some? {
      assert features[i].name.Some?;
    }
    EntriesAreValid(stored);
  }

  /** The stored stand-ins are what is in the listing. */
  lemma ListedAreResolved(store: Store, features: seq<Feature>, retrieve: bool, listing: seq<Feature>)
    requires store.Valid() && Named(features) && Saves(store, features, retrieve)
    requires ListsAfter(listing, store, features, retrieve)
    ensures forall f <- ResolvedAll(store, features, retrieve) :: f in listing
  {
    var stored := ResolvedAll(store, features, retrieve);
    forall f | f in stored ensures f in listing {
      var i :| 0 <= i < |stored| && stored[i] == f;
      StandInIsThere(store, features, retrieve, |features|, i);
      assert IdsOf(stored)[i] == f.id;
      var g :| g in listing && g.id == f.id;
    }
  }

  /** Whatever the listing, the client restores the stand-ins in the order of the group. */
  lemma Reloads(store: Store, features: seq<Feature>, retrieve: bool, listing: seq<Feature>)
    requires store.Valid() && Named(features) && Saves(store, features, retrieve)
    requires ListsAfter(listing, store, features, retrieve)
    ensures var stored := ResolvedAll(store, features, retrieve);
            && AllListed(ById(listing), IdsOf(stored)) && Named(listing)
            && PutAll(ItemsOf(ById(listing), IdsOf(stored))) == Entries(stored)
            && G.Construct(G.Singles(ItemsOf(ById(listing), IdsOf(stored)))) == Success(Entries(stored))
  {
    var stored := ResolvedAll(store, features, retrieve);
    ResolvedIsValid(store, features, retrieve);
    ListedAreResolved(store, features, retrieve, listing);
    ReloadRoundTrip(Entries(stored), listing);
    assert Ids(Entries(stored)) == IdsOf(stored);
    StoreStaysValid(store, features, retrieve, |features|);
    forall i | 0 <= i < |listing| ensures listing[i].name.Some? {
      assert listing[i] in listing;
    }
  }

  /** `FeatureGroup.save`: batch creation, a temporary list, and the reload from the server's listing. */
  method SaveGroup(store: Store, objects: FeatureObjects, retrieve: bool, listing: seq<Feature>, pageSize: nat)
    returns (r: Result<FeatureObjects>, after: Store)
    requires store.Valid() && Named(Features(objects)) && pageSize >= 1
    requires Saves(store, Features(objects), retrieve) ==> ListsAfter(listing, store, Features(objects), retrieve)
    ensures r.Success? <==> Saves(store, Features(objects), retrieve)
    ensures r.Failure? ==> r.error == RecordCreationException
    ensures r.Success? ==> r.value == Entries(ResolvedAll(store, Features(objects), retrieve))
    ensures after == StoreAfter(store, Features(objects), retrieve, FirstRefused(store, Features(objects), retrieve))
  {
    var features := Features(objects);
    var ids;
    ids, after := BatchFeatureCreate(store, features, retrieve);
    if ids.Failure? {
      return Failure(ids.error), after;
    }
    FirstRefusedIs(store, features, retrieve, |features|);
    StoreStaysValid(store, features, retrieve, |features|);
    ListableIff(store, features, retrieve);
    var created := CreateFeatureList(after, ids.value);
    if created.Failure? {
      return Failure(created.error), after;
    }
    Reloads(store, features, retrieve, listing);
    var loaded := Initialize(listing, pageSize, ids.value);
    r := Success(loaded.value.1);
  }

  /** The feature was not saved before, and nothing is retrieved in its place, or it was saved as it is. */
  predicate StoredAsIs(store: Store, f: Feature, retrieve: bool) {
    if f.id in store.features then store.features[f.id] == f else ToCreate(store, f, retrieve)
  }

  predicate KeepsName(store: Store, f: Feature) {
    f.id in store.features ==> store.features[f.id].name == f.name
  }

  lemma ResolvedIff(store: Store, f: Feature, retrieve: bool)
    requires store.Valid() && f.name.Some?
    ensures var g := Resolved(store, f, retrieve);
            && g.name.Some?
            && (g == f <==> StoredAsIs(store, f, retrieve))
            && (g.name == f.name <==> KeepsName(store, f))
  {
  }

  /** Round trip through the server: the reloaded group is the saved one exactly when every feature
      whose id was saved before is stored as it is in the group, and retrieval replaces none. The names
      survive exactly when the features saved before still have theirs. */
  lemma SaveRoundTripIff(store: Store, objects: FeatureObjects, retrieve: bool)
    requires store.Valid() && G.Valid(objects) && Saves(store, Features(objects), retrieve)
    ensures var reloaded := Entries(ResolvedAll(store, Features(objects), retrieve));
            && G.Valid(reloaded)
            && (reloaded == objects <==>
                forall i :: 0 <= i < |objects| ==> StoredAsIs(store, objects[i].1, retrieve))
            && (G.Keys(reloaded) == G.Keys(objects) <==>
                forall i :: 0 <= i < |objects| ==> KeepsName(store, objects[i].1))
  {
    var features := Features(objects);
    var reloaded := Entries(ResolvedAll(store, features, retrieve));
    ResolvedIsValid(store, features, retrieve);
    forall i | 0 <= i < |objects|
      ensures reloaded[i] == objects[i] <==> StoredAsIs(store, objects[i].1, retrieve)
      ensures G.Keys(reloaded)[i] == G.Keys(objects)[i] <==> KeepsName(store, objects[i].1)
    {
      ResolvedIff(store, objects[i].1, retrieve);
    }
    assert |reloaded| == |objects|;
    assert reloaded == objects <==> forall i :: 0 <= i < |objects| ==> reloaded[i] == objects[i];
    assert G.Keys(reloaded) == G.Keys(objects)
           <==> forall i :: 0 <= i < |objects| ==> G.Keys(reloaded)[i] == G.Keys(objects)[i];
  }

  /** A group of new features of one feature store, distinct in name and id, is saved and comes back as
      it was. */
  lemma NewFeaturesRoundTrip(store: Store, objects: FeatureObjects, retrieve: bool)
    requires store.Valid() && G.Valid(objects) && objects != [] && DistinctIds(Features(objects))
    requires OneFeatureStore(Features(objects))
    requires forall i :: 0 <= i < |objects| ==>
               objects[i].1.id !in store.features && objects[i].0 !in store.defaults
    ensures Saves(store, Features(objects), retrieve)
    ensures Entries(ResolvedAll(store, Features(objects), retrieve)) == objects
  {
    var features := Features(objects);
    forall i, j | 0 <= i < j < |features| ensures features[i].name != features[j].name {
      assert G.Keys(objects)[i] != G.Keys(objects)[j];
    }
    assert ResolvedAll(store, features, retrieve) == features;
  }

  /** Two new features of different feature stores: their group is accepted by the client and refused by
      the server, after both features have been created. */
  lemma TwoFeatureStores(store: Store, f: Feature, g: Feature, retrieve: bool)
    requires store.Valid() && f.featureStore != g.featureStore && f.id != g.id && f.name != g.name
    requires f.name.Some? && f.id !in store.features && f.name.value !in store.defaults
    requires g.name.Some? && g.id !in store.features && g.name.value !in store.defaults
    ensures var objects := [(f.name.value, f), (g.name.value, g)];
            && G.Construct(G.Singles([f, g])) == Success(objects)
            && !Saves(store, Features(objects), retrieve)
            && StoreAfter(store, Features(objects), retrieve, FirstRefused(store, Features(objects), retrieve))
               == store.Creating(f).Creating(g)
  {
    var objects := [(f.name.value, f), (g.name.value, g)];
    assert Features(objects) == [f, g];
    assert G.Keys(objects) == [f.name.value, g.name.value];
    ConstructsAgain(objects);
    assert Creatable(store, [f, g], retrieve, 2);
    FirstRefusedIs(store, [f, g], retrieve, 2);
    assert StoreAfter(store, [f, g], retrieve, 1) == store.Creating(f);
    var stored := ResolvedAll(store, [f, g], retrieve);
    assert stored[0] == f && stored[1] == g;
  }

  /** A feature saved before and changed since, say by `fillna`, keeps its id: the save is accepted and
      the reload takes the change back. */
  lemma ChangeIsTakenBack(store: Store, f: Feature, mask: nat, retrieve: bool)
    requires store.Valid() && f.id in store.features && store.features[f.id] == f
    ensures var key := f.name.GetOr("");
            var changed := G.Next([(key, f)], G.SetMasked(mask, key));
            && changed == [(key, f.(node := G.Alias(key, G.Conditional(f.node, mask))))]
            && Saves(store, Features(changed), retrieve)
            && Entries(ResolvedAll(store, Features(changed), retrieve)) == [(key, f)]
  {
    var key := f.name.value;
    var one: FeatureObjects := [(key, f)];
    assert G.Keys(one) == [key];
    G.AssignMaskedIff(one, mask, key);
    var changed := G.Next(one, G.SetMasked(mask, key));
    assert G.Lookup(changed, key) == changed[0].1 && G.Keys(changed)[0] == key;
  }

  /** Two features of one id cannot both come back: the save is refused or the reloaded group differs. */
  lemma SharedIdDoesNotReload(store: Store, objects: FeatureObjects, retrieve: bool)
    requires store.Valid() && G.Valid(objects) && !DistinctIds(Features(objects))
    ensures !Saves(store, Features(objects), retrieve)
            || Entries(ResolvedAll(store, Features(objects), retrieve)) != objects
  {
    if Saves(store, Features(objects), retrieve) {
      ResolvedIsValid(store, Features(objects), retrieve);
    }
  }
}
