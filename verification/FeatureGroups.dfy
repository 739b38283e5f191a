/** Feature groups: flattening of nested items, subset, drop, and assignment
    (featurebyte/api/feature_group.py, featurebyte/api/feature.py, featurebyte/core/series.py). */
module FeatureGroups {
  import opened Sequences
  import opened Wrappers

  /** The graph node of a feature: named by a projection or an alias; any other node is unnamed. */
  datatype Node =
    | Projection(name: string)
    | Alias(name: string, input: Node)
    | Conditional(input: Node, mask: nat)
    | Derived(operation: nat)

  function NodeName(node: Node): Option<string> {
    if node.Projection? || node.Alias? then Some(node.name) else None
  }

  datatype Feature = Feature(id: nat, featureStore: nat, name: Option<string>, node: Node)

  /** Setting the name of a feature: a named node accepts only its own name, an unnamed one gets an
      alias. */
  function SetName(f: Feature, name: string): Result<Feature> {
    var existing := NodeName(f.node);
    if existing.None? then Success(f.(name := Some(name), node := Alias(name, f.node)))
    else if existing.value != name then Failure(ValueError)
    else Success(f.(name := Some(name)))
  }

  /** `feature[mask] = value` and `fillna` on a feature without a parent: the node changes, the name
      stays. */
  function AssignedWhere(f: Feature, mask: nat): Feature {
    f.(node := Conditional(f.node, mask))
  }

  /** A feature is named once: afterwards no other name is accepted and this one changes nothing. */
  lemma NamedOnce(f: Feature, first: string, second: string)
    requires SetName(f, first).Success?
    ensures var g := SetName(f, first).value;
            && NodeName(g.node) == g.name == Some(first) && g.id == f.id
            && SetName(g, second) == (if second == first then Success(g) else Failure(ValueError))
  {
  }

  /** What a user does to a feature that belongs to no group; a refused step changes nothing. */
  datatype FeatureStep = Rename(name: string) | AssignWhere(mask: nat)

  function NextFeature(f: Feature, step: FeatureStep): Feature {
    match step
    case Rename(name) => if SetName(f, name).Success? then SetName(f, name).value else f
    case AssignWhere(mask) => AssignedWhere(f, mask)
  }

  function Life(f: Feature, steps: seq<FeatureStep>): Feature {
    if steps == [] then f else NextFeature(Life(f, steps[..|steps| - 1]), steps[|steps| - 1])
  }

  /** A feature that carries a name, and its node's if that has one. */
  predicate Carries(f: Feature) {
    f.name.Some? && (NodeName(f.node).Some? ==> NodeName(f.node) == f.name)
  }

  /** Step i asks for another name right after an assignment, or on a node that is unnamed at first. */
  predicate RenamesAt(f: Feature, steps: seq<FeatureStep>, i: nat) {
    && i < |steps| && steps[i].Rename? && Some(steps[i].name) != f.name
    && if i == 0 then NodeName(f.node).None? else steps[i - 1].AssignWhere?
  }

  lemma {:induction false} NameIsKept(f: Feature, steps: seq<FeatureStep>)
    requires Carries(f) && forall i: nat :: !RenamesAt(f, steps, i)
    ensures Carries(Life(f, steps)) && Life(f, steps).name == f.name
    ensures NodeName(Life(f, steps).node).None?
            <==> if steps == [] then NodeName(f.node).None? else steps[|steps| - 1].AssignWhere?
  {
    if steps != [] {
      var n := |steps| - 1;
      forall i: nat ensures !RenamesAt(f, steps[..n], i) {
        assert !RenamesAt(f, steps, i);
      }
      NameIsKept(f, steps[..n]);
      assert !RenamesAt(f, steps, n);
    }
  }

  /** Some moment of the run sees the feature under another name. */
  ghost predicate Renamed(f: Feature, steps: seq<FeatureStep>) {
    exists k :: 0 <= k <= |steps| && Life(f, steps[..k]).name != f.name
  }

  lemma {:induction false} RenamedBy(f: Feature, steps: seq<FeatureStep>, i: nat)
    requires Carries(f) && RenamesAt(f, steps, i)
    ensures Renamed(f, steps)
    decreases i
  {
    var before := steps[..i];
    if j: nat :| RenamesAt(f, before, j) {
      assert RenamesAt(f, steps, j);
      RenamedBy(f, steps, j);
    } else {
      NameIsKept(f, before);
      assert steps[..i + 1][..i] == before;
      assert i > 0 ==> before[i - 1] == steps[i - 1];
      assert Life(f, steps[..i + 1]).name == Some(steps[i].name);
    }
  }

  /** A named feature is ever renamed exactly when some step asks for another name right after an
      assignment, that is, while its node is neither a projection nor an alias. */
  lemma RenamedIff(f: Feature, steps: seq<FeatureStep>)
    requires Carries(f)
    ensures Renamed(f, steps) <==> exists i: nat :: RenamesAt(f, steps, i)
  {
    if i: nat :| RenamesAt(f, steps, i) {
      RenamedBy(f, steps, i);
    } else {
      forall k | 0 <= k <= |steps| ensures Life(f, steps[..k]).name == f.name {
        forall i: nat ensures !RenamesAt(f, steps[..k], i) {
          assert !RenamesAt(f, steps, i);
        }
        NameIsKept(f, steps[..k]);
      }
    }
  }

  /** A projected feature after `fillna`: it still carries its name, and takes any other. */
  lemma RenamedAfterFillna(id: nat, featureStore: nat, name: string, mask: nat, other: string)
    ensures var f := Feature(id, featureStore, Some(name), Projection(name));
            && SetName(f, other).Success? == (other == name)
            && Life(f, [AssignWhere(mask)]).name == Some(name)
            && Life(f, [AssignWhere(mask), Rename(other)]).name == Some(other)
  {
    var steps := [AssignWhere(mask), Rename(other)];
    assert steps[..1] == [AssignWhere(mask)] && steps[..1][..0] == [];
  }

  /** An ordered dictionary from names to features. */
  type FeatureObjects = seq<(string, Feature)>

  function Keys(objects: FeatureObjects): seq<string> {
    seq(|objects|, i requires 0 <= i < |objects| => objects[i].0)
  }

  /** The invariant of a group: distinct keys, and every key is its feature's name. */
  predicate Valid(objects: FeatureObjects) {
    && NoDuplicates(Keys(objects))
    && (forall i :: 0 <= i < |objects| ==> objects[i].1.name == Some(objects[i].0))
  }

  /** A direct feature, or the features of another group. */
  datatype Item = Single(feature: Feature) | Group(objects: FeatureObjects)

  predicate ValidItems(items: seq<Item>) {
    forall i :: 0 <= i < |items| && items[i].Group? ==> Valid(items[i].objects)
  }

  function IndexOf(keys: seq<string>, key: string): (i: nat)
    requires key in keys
    ensures i < |keys| && keys[i] == key
  {
    if keys[0] == key then 0 else IndexOf(keys[1..], key) + 1
  }

  /** `feature_objects[key]` */
  function Lookup(objects: FeatureObjects, key: string): Feature
    requires key in Keys(objects)
  {
    var i := IndexOf(Keys(objects), key);
    objects[i].1
  }

  /** Dictionary assignment: in place for a known key, at the end for a new one. */
  function Put(objects: FeatureObjects, key: string, f: Feature): FeatureObjects {
    if key in Keys(objects) then objects[IndexOf(Keys(objects), key) := (key, f)] else objects + [(key, f)]
  }

  lemma PutKeys(objects: FeatureObjects, key: string, f: Feature)
    ensures Keys(Put(objects, key, f)) == if key in Keys(objects) then Keys(objects) else Keys(objects) + [key]
  {
  }

  /** A leaf: the key it is to be stored under, its feature, and whether it is listed directly. */
  datatype Leaf = Leaf(key: string, feature: Feature, direct: bool)

  function DirectLeaf(f: Feature): Leaf {
    Leaf(f.name.GetOr(""), f, true)
  }

  function ItemLeaves(item: Item): seq<Leaf> {
    match item
    case Single(f) => [DirectLeaf(f)]
    case Group(objects) =>
      seq(|objects|, i requires 0 <= i < |objects| => Leaf(objects[i].0, objects[i].1, false))
  }

  /** The leaves of the first n items, in order. */
  function LeavesUpTo(items: seq<Item>, n: nat): seq<Leaf>
    requires n <= |items|
  {
    if n == 0 then [] else LeavesUpTo(items, n - 1) + ItemLeaves(items[n - 1])
  }

  function Leaves(items: seq<Item>): seq<Leaf> {
    LeavesUpTo(items, |items|)
  }

  /** The map the leaves make, in order. */
  function ObjectsOf(leaves: seq<Leaf>): FeatureObjects {
    seq(|leaves|, i requires 0 <= i < |leaves| => (leaves[i].feature.name.GetOr(""), leaves[i].feature))
  }

  /** All names present and distinct, and no leaf shares its id with an earlier directly listed
      feature. Ids reached through a group are checked against those, but not remembered. */
  predicate Distinguishable(leaves: seq<Leaf>) {
    && (forall i :: 0 <= i < |leaves| ==> leaves[i].feature.name.Some?)
    && (forall i, j :: 0 <= i < j < |leaves| ==> leaves[i].feature.name != leaves[j].feature.name)
    && (forall i, j :: 0 <= i < j < |leaves| && leaves[i].direct ==> leaves[i].feature.id != leaves[j].feature.id)
  }

  /** The i-th leaf passes the checks against the leaves before it: its name is none of their keys, its
      id none of the directly listed ones, and a direct leaf has a name. */
  predicate Passes(leaves: seq<Leaf>, i: nat)
    requires i < |leaves|
  {
    && (leaves[i].direct ==> leaves[i].feature.name.Some?)
    && (forall j :: 0 <= j < i ==> leaves[i].feature.name != Some(leaves[j].key))
    && (forall j :: 0 <= j < i && leaves[j].direct ==> leaves[i].feature.id != leaves[j].feature.id)
  }

  predicate Accepts(leaves: seq<Leaf>) {
    forall i :: 0 <= i < |leaves| ==> Passes(leaves, i)
  }

  /** The leaves put into a dictionary one after the other. */
  function Stored(leaves: seq<Leaf>): FeatureObjects {
    if leaves == [] then []
    else
      var n := |leaves| - 1;
      Put(Stored(leaves[..n]), leaves[n].key, leaves[n].feature)
  }

  /** What flattening does: a ValueError unless every leaf passes, otherwise the dictionary. */
  function Flattened(items: seq<Item>): Result<FeatureObjects> {
    if Accepts(Leaves(items)) then Success(Stored(Leaves(items))) else Failure(ValueError)
  }

  /** The keys of the dictionary are those of the leaves. */
  lemma {:induction false} StoredKeyIff(leaves: seq<Leaf>, x: string)
    ensures x in Keys(Stored(leaves)) <==> exists i :: 0 <= i < |leaves| && leaves[i].key == x
  {
    if leaves != [] {
      var n := |leaves| - 1;
      StoredKeyIff(leaves[..n], x);
      PutKeys(Stored(leaves[..n]), leaves[n].key, leaves[n].feature);
      assert forall i :: 0 <= i < n ==> leaves[..n][i] == leaves[i];
    }
  }

  /** Each key is there once. */
  lemma {:induction false} StoredOnce(leaves: seq<Leaf>)
    ensures NoDuplicates(Keys(Stored(leaves)))
  {
    if leaves != [] {
      var n := |leaves| - 1;
      StoredOnce(leaves[..n]);
      PutKeys(Stored(leaves[..n]), leaves[n].key, leaves[n].feature);
    }
  }

  /** Under each key is the last leaf that has it. */
  lemma {:induction false} LastLeafStays(leaves: seq<Leaf>, i: nat)
    requires i < |leaves| && forall j :: i < j < |leaves| ==> leaves[j].key != leaves[i].key
    ensures (leaves[i].key, leaves[i].feature) in Stored(leaves)
  {
    var n := |leaves| - 1;
    var before := Stored(leaves[..n]);
    if i < n {
      LastLeafStays(leaves[..n], i);
      var k :| 0 <= k < |before| && before[k] == (leaves[i].key, leaves[i].feature);
      assert Stored(leaves)[k] == before[k];
    } else if leaves[n].key in Keys(before) {
      assert Stored(leaves)[IndexOf(Keys(before), leaves[n].key)] == (leaves[n].key, leaves[n].feature);
    } else {
      assert Stored(leaves)[|before|] == (leaves[n].key, leaves[n].feature);
    }
  }

  /** The loop's two accumulators: the map, and the ids of the directly listed features. */
  datatype Flat = Flat(objects: FeatureObjects, ids: set<nat>)

  ghost predicate DirectId(leaves: seq<Leaf>, id: nat) {
    exists i :: 0 <= i < |leaves| && leaves[i].direct && leaves[i].feature.id == id
  }

  ghost predicate Represents(acc: Flat, leaves: seq<Leaf>) {
    && Accepts(leaves) && acc.objects == Stored(leaves)
    && (forall id :: id in acc.ids <==> DirectId(leaves, id))
  }

  /** One leaf, with the checks in the order the source makes them. */
  function AddLeaf(acc: Flat, leaf: Leaf): Result<Flat> {
    var f := leaf.feature;
    if leaf.direct && f.name.None? then Failure(ValueError)
    else if f.name.Some? && f.name.value in Keys(acc.objects) then Failure(ValueError)
    else if f.id in acc.ids then Failure(ValueError)
    else Success(Flat(Put(acc.objects, leaf.key, f), if leaf.direct then acc.ids + {f.id} else acc.ids))
  }

  lemma AcceptsOneMore(leaves: seq<Leaf>, leaf: Leaf)
    requires Accepts(leaves)
    ensures Accepts(leaves + [leaf]) <==> Passes(leaves + [leaf], |leaves|)
  {
    var next := leaves + [leaf];
    forall i | 0 <= i < |leaves| ensures Passes(next, i) {
      assert Passes(leaves, i);
    }
  }

  lemma DirectIdOneMore(leaves: seq<Leaf>, leaf: Leaf, id: nat)
    ensures DirectId(leaves + [leaf], id) <==> DirectId(leaves, id) || (leaf.direct && leaf.feature.id == id)
  {
    var next, n := leaves + [leaf], |leaves|;
    assert next[n] == leaf;
    if DirectId(leaves, id) {
      var i :| 0 <= i < n && leaves[i].direct && leaves[i].feature.id == id;
      assert next[i] == leaves[i];
    }
  }

  /** The checks on one leaf pass exactly when the leaves with it are accepted. */
  lemma AddLeafIff(acc: Flat, leaves: seq<Leaf>, leaf: Leaf)
    requires Represents(acc, leaves)
    ensures var r, next := AddLeaf(acc, leaf), leaves + [leaf];
            (r.Success? <==> Accepts(next)) && (r.Success? ==> Represents(r.value, next))
  {
    var next, n := leaves + [leaf], |leaves|;
    if leaf.feature.name.Some? { StoredKeyIff(leaves, leaf.feature.name.value); }
    AcceptsOneMore(leaves, leaf);
    assert next[n] == leaf && next[..n] == leaves;
    assert forall i :: 0 <= i < n ==> next[i] == leaves[i];
    DirectIdOneMore(leaves, leaf, leaf.feature.id);
    forall id ensures DirectId(next, id) <==> DirectId(leaves, id) || (leaf.direct && leaf.feature.id == id) {
      DirectIdOneMore(leaves, leaf, id);
    }
  }

  lemma Rejected(a: seq<Leaf>, b: seq<Leaf>)
    requires !Accepts(a)
    ensures !Accepts(a + b)
  {
    var i :| 0 <= i < |a| && !Passes(a, i);
    assert forall j :: 0 <= j < |a| ==> (a + b)[j] == a[j];
    assert !Passes(a + b, i);
  }

  /** The leaves so far and the first j features of a group. */
  function WithGroup(leaves: seq<Leaf>, objects: FeatureObjects, j: nat): seq<Leaf>
    requires j <= |objects|
  {
    leaves + ItemLeaves(Group(objects))[..j]
  }

  lemma WithGroupNext(leaves: seq<Leaf>, objects: FeatureObjects, j: nat)
    requires j < |objects|
    ensures WithGroup(leaves, objects, j + 1)
            == WithGroup(leaves, objects, j) + [Leaf(objects[j].0, objects[j].1, false)]
  {
  }

  lemma GroupRejected(leaves: seq<Leaf>, objects: FeatureObjects, j: nat)
    requires j <= |objects| && !Accepts(WithGroup(leaves, objects, j))
    ensures !Accepts(leaves + ItemLeaves(Group(objects)))
  {
    var here := ItemLeaves(Group(objects));
    assert WithGroup(leaves, objects, j) + here[j..] == leaves + here;
    Rejected(WithGroup(leaves, objects, j), here[j..]);
  }

  /** The inner loop, over the features of a group. */
  method AddGroup(acc: Flat, objects: FeatureObjects, ghost leaves: seq<Leaf>) returns (r: Result<Flat>)
    requires Represents(acc, leaves)
    ensures r.Success? <==> Accepts(leaves + ItemLeaves(Group(objects)))
    ensures r.Success? ==> Represents(r.value, leaves + ItemLeaves(Group(objects)))
    ensures r.Failure? ==> r.error == ValueError
  {
    var current := acc;
    assert WithGroup(leaves, objects, 0) == leaves;
    for j := 0 to |objects|
      invariant Represents(current, WithGroup(leaves, objects, j))
    {
      var leaf := Leaf(objects[j].0, objects[j].1, false);
      AddLeafIff(current, WithGroup(leaves, objects, j), leaf);
      WithGroupNext(leaves, objects, j);
      var next := AddLeaf(current, leaf);
      if next.Failure? {
        GroupRejected(leaves, objects, j + 1);
        return next;
      }
      current := next.value;
    }
    assert WithGroup(leaves, objects, |objects|) == leaves + ItemLeaves(Group(objects));
    r := Success(current);
  }

  /** One item, with the checks for its kind. */
  method AddItem(acc: Flat, item: Item, ghost leaves: seq<Leaf>) returns (r: Result<Flat>)
    requires Represents(acc, leaves)
    ensures r.Success? <==> Accepts(leaves + ItemLeaves(item))
    ensures r.Success? ==> Represents(r.value, leaves + ItemLeaves(item))
    ensures r.Failure? ==> r.error == ValueError
  {
    match item {
      case Single(f) =>
        r := AddLeaf(acc, DirectLeaf(f));
        AddLeafIff(acc, leaves, DirectLeaf(f));
      case Group(objects) =>
        r := AddGroup(acc, objects, leaves);
    }
  }

  lemma {:induction false} RejectedForGood(items: seq<Item>, m: nat, n: nat)
    requires m <= n <= |items| && !Accepts(LeavesUpTo(items, m))
    ensures !Accepts(LeavesUpTo(items, n))
    decreases n
  {
    if m < n {
      RejectedForGood(items, m, n - 1);
      Rejected(LeavesUpTo(items, n - 1), ItemLeaves(items[n - 1]));
    }
  }

  /** `_flatten_items` */
  method FlattenItems(items: seq<Item>) returns (r: Result<FeatureObjects>)
    ensures r == Flattened(items)
  {
    var acc := Flat([], {});
    for i := 0 to |items|
      invariant Represents(acc, LeavesUpTo(items, i))
    {
      var next := AddItem(acc, items[i], LeavesUpTo(items, i));
      if next.Failure? {
        RejectedForGood(items, i + 1, |items|);
        return Failure(ValueError);
      }
      acc := next.value;
    }
    r := Success(acc.objects);
  }

  /** The leaves in order, each under its key. */
  function EntriesOf(leaves: seq<Leaf>): FeatureObjects {
    seq(|leaves|, i requires 0 <= i < |leaves| => (leaves[i].key, leaves[i].feature))
  }

  function LeafKeys(leaves: seq<Leaf>): seq<string> {
    seq(|leaves|, i requires 0 <= i < |leaves| => leaves[i].key)
  }

  lemma {:induction false} StoredIsConcatenation(leaves: seq<Leaf>)
    requires NoDuplicates(LeafKeys(leaves))
    ensures Stored(leaves) == EntriesOf(leaves)
  {
    if leaves != [] {
      var n := |leaves| - 1;
      var front := leaves[..n];
      forall i, j | 0 <= i < j < n ensures LeafKeys(front)[i] != LeafKeys(front)[j] {
        assert LeafKeys(leaves)[i] != LeafKeys(leaves)[j];
      }
      StoredIsConcatenation(front);
      forall i | 0 <= i < n ensures Keys(Stored(front))[i] != leaves[n].key {
        assert LeafKeys(leaves)[i] != LeafKeys(leaves)[n];
      }
      assert EntriesOf(leaves) == EntriesOf(front) + [(leaves[n].key, leaves[n].feature)];
    }
  }

  /** A feature of a group is stored under a key that an earlier leaf has: that leaf is overwritten. */
  predicate Overwrites(leaves: seq<Leaf>, j: nat) {
    j < |leaves| && !leaves[j].direct && exists i :: 0 <= i < j && leaves[i].key == leaves[j].key
  }

  lemma {:induction false} DirectKeys(items: seq<Item>, n: nat)
    requires n <= |items|
    ensures forall leaf <- LeavesUpTo(items, n) :: leaf.direct ==> leaf.key == leaf.feature.name.GetOr("")
  {
    if n > 0 { DirectKeys(items, n - 1); }
  }

  lemma NoOverwriteIff(items: seq<Item>)
    requires Flattened(items).Success?
    ensures NoDuplicates(LeafKeys(Leaves(items))) <==> forall j: nat :: !Overwrites(Leaves(items), j)
  {
    var leaves := Leaves(items);
    DirectKeys(items, |items|);
    if forall j: nat :: !Overwrites(leaves, j) {
      forall i, j | 0 <= i < j < |leaves| ensures LeafKeys(leaves)[i] != LeafKeys(leaves)[j] {
        assert !Overwrites(leaves, j) && Passes(leaves, j) && leaves[j] in leaves;
      }
    }
    if j: nat :| Overwrites(leaves, j) {
      var i :| 0 <= i < j && leaves[i].key == leaves[j].key;
      assert LeafKeys(leaves)[i] == LeafKeys(leaves)[j];
    }
  }

  /** An accepted flattening is the in-order concatenation of the leaves exactly when no feature of a
      group is stored under a key an earlier leaf already has. */
  lemma FlatteningKeepsLeavesIff(items: seq<Item>)
    requires Flattened(items).Success?
    ensures NoDuplicates(Keys(Flattened(items).value))
    ensures Flattened(items).value == EntriesOf(Leaves(items)) <==> forall j: nat :: !Overwrites(Leaves(items), j)
  {
    var leaves := Leaves(items);
    StoredOnce(leaves);
    NoOverwriteIff(items);
    assert Keys(EntriesOf(leaves)) == LeafKeys(leaves);
    if NoDuplicates(LeafKeys(leaves)) {
      StoredIsConcatenation(leaves);
    }
  }

  /** What flattening promises of valid groups: the in-order concatenation of the leaves under their
      names, or a ValueError. */
  function Construct(items: seq<Item>): Result<FeatureObjects> {
    if Distinguishable(Leaves(items)) then Success(ObjectsOf(Leaves(items))) else Failure(ValueError)
  }

  /** Every leaf is to be stored under its name, if it has one. */
  predicate Keyed(leaves: seq<Leaf>) {
    forall i :: 0 <= i < |leaves| ==>
      if leaves[i].direct then leaves[i].key == leaves[i].feature.name.GetOr("")
      else leaves[i].feature.name == Some(leaves[i].key)
  }

  lemma {:induction false} ValidItemsAreKeyed(items: seq<Item>, n: nat)
    requires ValidItems(items) && n <= |items|
    ensures Keyed(LeavesUpTo(items, n))
  {
    if n > 0 { ValidItemsAreKeyed(items, n - 1); }
  }

  lemma KeyedIff(leaves: seq<Leaf>)
    requires Keyed(leaves)
    ensures Accepts(leaves) <==> Distinguishable(leaves)
    ensures Accepts(leaves) ==> NoDuplicates(LeafKeys(leaves)) && EntriesOf(leaves) == ObjectsOf(leaves)
  {
    if Accepts(leaves) {
      forall i | 0 <= i < |leaves| ensures leaves[i].feature.name == Some(leaves[i].key) {
        assert Passes(leaves, i);
      }
      forall i, j | 0 <= i < j < |leaves|
        ensures leaves[j].feature.name != Some(leaves[i].key)
        ensures leaves[i].direct ==> leaves[i].feature.id != leaves[j].feature.id
      {
        assert Passes(leaves, j);
      }
    }
    if Distinguishable(leaves) {
      forall i | 0 <= i < |leaves| ensures Passes(leaves, i) {
        forall j | 0 <= j < i ensures leaves[i].feature.name != Some(leaves[j].key) {
          assert leaves[j].feature.name != leaves[i].feature.name;
        }
      }
    }
  }

  /** Of valid groups flattening keeps its promise. */
  lemma FlattenedIsConstruct(items: seq<Item>)
    requires ValidItems(items)
    ensures Flattened(items) == Construct(items)
  {
    ValidItemsAreKeyed(items, |items|);
    KeyedIff(Leaves(items));
    if Accepts(Leaves(items)) {
      StoredIsConcatenation(Leaves(items));
    }
  }

  /** A constructed group is valid, whatever the nodes of its features. */
  lemma ConstructIsValid(items: seq<Item>)
    requires Construct(items).Success?
    ensures Valid(Construct(items).value)
  {
    var leaves := Leaves(items);
    assert forall i, j :: 0 <= i < j < |leaves| ==> leaves[i].feature.name != leaves[j].feature.name;
  }

  /** Regrouping the same features does not change the map when both groupings are accepted. */
  lemma RegroupingIrrelevant(a: seq<Item>, b: seq<Item>)
    requires Construct(a).Success? && Construct(b).Success?
    requires |Leaves(a)| == |Leaves(b)|
    requires forall i :: 0 <= i < |Leaves(a)| ==> Leaves(a)[i].feature == Leaves(b)[i].feature
    ensures Construct(a) == Construct(b)
  {
    assert ObjectsOf(Leaves(a)) == ObjectsOf(Leaves(b));
  }

  lemma LeavesOfTwo(a: Item, b: Item)
    ensures Leaves([a, b]) == ItemLeaves(a) + ItemLeaves(b)
  {
    assert LeavesUpTo([a, b], 0) == [];
    assert LeavesUpTo([a, b], 1) == ItemLeaves(a);
  }

  /** But it can change whether they are: two features of one id pass only when no direct listing
      comes first. */
  lemma RegroupingMayReject(f: Feature, g: Feature)
    requires f.id == g.id && f.name.Some? && g.name.Some? && f.name != g.name
    ensures Construct([Single(f), Single(g)]).Failure?
    ensures Construct([Group([(f.name.value, f)]), Group([(g.name.value, g)])])
            == Success([(f.name.value, f), (g.name.value, g)])
    ensures Construct([Group([(f.name.value, f)]), Single(g)]).Success?
  {
    var fs, gs := Group([(f.name.value, f)]), Group([(g.name.value, g)]);
    LeavesOfTwo(Single(f), Single(g));
    LeavesOfTwo(fs, gs);
    LeavesOfTwo(fs, Single(g));
    var fl, gl := Leaf(f.name.value, f, false), Leaf(g.name.value, g, false);
    assert ItemLeaves(fs) == [fl] && ItemLeaves(gs) == [gl];
    var leaves := Leaves([Single(f), Single(g)]);
    assert leaves[0].direct && leaves[0].feature.id == leaves[1].feature.id;
    assert Leaves([fs, gs]) == [fl, gl];
    assert ObjectsOf(Leaves([fs, gs])) == [(f.name.value, f), (g.name.value, g)];
  }

  function Selected(objects: FeatureObjects, columns: seq<string>): seq<Feature>
    requires forall c <- columns :: c in Keys(objects)
  {
    seq(|columns|, i requires 0 <= i < |columns| => Lookup(objects, columns[i]))
  }

  function Singles(features: seq<Feature>): seq<Item> {
    seq(|features|, i requires 0 <= i < |features| => Single(features[i]))
  }

  /** `_subset_list_of_columns`: the named features, flattened again as directly listed ones. */
  function Subset(objects: FeatureObjects, columns: seq<string>): Result<FeatureObjects> {
    if exists c <- columns :: c !in Keys(objects) then Failure(KeyError)
    else Construct(Singles(Selected(objects, columns)))
  }

  function Without(keys: seq<string>, names: seq<string>): seq<string> {
    if keys == [] then []
    else if keys[0] in names then Without(keys[1..], names)
    else [keys[0]] + Without(keys[1..], names)
  }

  /** `drop` */
  function Drop(objects: FeatureObjects, names: seq<string>): Result<FeatureObjects> {
    Subset(objects, Without(Keys(objects), names))
  }

  /** The features the columns name share no id. */
  predicate DistinctIds(objects: FeatureObjects, columns: seq<string>)
    requires forall c <- columns :: c in Keys(objects)
  {
    forall i, j :: 0 <= i < j < |columns| ==> Lookup(objects, columns[i]).id != Lookup(objects, columns[j]).id
  }

  lemma {:induction false} SinglesUpTo(features: seq<Feature>, n: nat)
    requires n <= |features|
    ensures |LeavesUpTo(Singles(features), n)| == n
    ensures forall i :: 0 <= i < n ==> LeavesUpTo(Singles(features), n)[i] == DirectLeaf(features[i])
  {
    if n > 0 { SinglesUpTo(features, n - 1); }
  }

  lemma SinglesLeaves(features: seq<Feature>)
    ensures |Leaves(Singles(features))| == |features|
    ensures forall i :: 0 <= i < |features| ==> Leaves(Singles(features))[i] == DirectLeaf(features[i])
  {
    SinglesUpTo(features, |features|);
  }

  lemma SelectedLeaves(objects: FeatureObjects, columns: seq<string>)
    requires Valid(objects) && forall c <- columns :: c in Keys(objects)
    ensures var leaves := Leaves(Singles(Selected(objects, columns)));
            && |leaves| == |columns|
            && forall i :: 0 <= i < |columns| ==>
                 leaves[i] == DirectLeaf(Lookup(objects, columns[i])) && leaves[i].feature.name == Some(columns[i])
  {
    SinglesLeaves(Selected(objects, columns));
    forall i | 0 <= i < |columns| ensures Lookup(objects, columns[i]).name == Some(columns[i]) {
      assert columns[i] in Keys(objects);
    }
  }

  lemma SelectedIff(objects: FeatureObjects, columns: seq<string>)
    requires Valid(objects) && forall c <- columns :: c in Keys(objects)
    ensures Distinguishable(Leaves(Singles(Selected(objects, columns))))
            <==> NoDuplicates(columns) && DistinctIds(objects, columns)
  {
    SelectedLeaves(objects, columns);
  }

  /** A subset of a valid group keeps the order of the columns asked for. It is refused exactly for
      an unknown column, a repeated one, or two features with one id. */
  lemma SubsetIff(objects: FeatureObjects, columns: seq<string>)
    requires Valid(objects)
    ensures Subset(objects, columns).Success?
            <==> (forall c <- columns :: c in Keys(objects)) && NoDuplicates(columns) && DistinctIds(objects, columns)
    ensures Subset(objects, columns).Failure? ==>
              Subset(objects, columns).error == if exists c <- columns :: c !in Keys(objects) then KeyError
                                                else ValueError
    ensures Subset(objects, columns).Success? ==>
              var r := Subset(objects, columns).value;
              && Valid(r) && Keys(r) == columns
              && forall c <- columns :: Lookup(r, c) == Lookup(objects, c)
  {
    if forall c <- columns :: c in Keys(objects) {
      SelectedIff(objects, columns);
      if Subset(objects, columns).Success? {
        SelectedLeaves(objects, columns);
        ConstructIsValid(Singles(Selected(objects, columns)));
        assert Keys(Subset(objects, columns).value) == columns;
      }
    }
  }

  lemma {:induction false} WithoutMembers(keys: seq<string>, names: seq<string>)
    ensures forall k :: k in Without(keys, names) <==> k in keys && k !in names
    ensures NoDuplicates(keys) ==> NoDuplicates(Without(keys, names))
  {
    if keys != [] {
      var rest := keys[1..];
      assert forall i :: 0 <= i < |rest| ==> rest[i] == keys[i + 1];
      WithoutMembers(rest, names);
      assert forall k :: k in keys <==> k == keys[0] || k in rest;
      assert NoDuplicates(keys) ==> keys[0] !in rest;
    }
  }

  lemma {:induction false} WithoutTwice(keys: seq<string>, a: seq<string>, b: seq<string>)
    ensures Without(Without(keys, a), b) == Without(keys, a + b)
  {
    if keys != [] {
      WithoutTwice(keys[1..], a, b);
      if keys[0] !in a {
        assert ([keys[0]] + Without(keys[1..], a))[1..] == Without(keys[1..], a);
      }
    }
  }

  /** `drop` keeps the order of the surviving keys, and is refused only when two of the survivors
      share an id. */
  lemma DropIff(objects: FeatureObjects, names: seq<string>)
    requires Valid(objects)
    ensures var kept := Without(Keys(objects), names);
            && (forall k <- kept :: k in Keys(objects))
            && (Drop(objects, names).Success? <==> DistinctIds(objects, kept))
            && (Drop(objects, names).Failure? ==> Drop(objects, names).error == ValueError)
            && (Drop(objects, names).Success? ==>
                  Valid(Drop(objects, names).value) && Keys(Drop(objects, names).value) == kept)
  {
    WithoutMembers(Keys(objects), names);
    SubsetIff(objects, Without(Keys(objects), names));
  }

  /** A subset of a subset is the subset taken at once. */
  lemma SubsetOfSubset(objects: FeatureObjects, columns: seq<string>, fewer: seq<string>)
    requires Valid(objects) && Subset(objects, columns).Success? && forall c <- fewer :: c in columns
    ensures Subset(Subset(objects, columns).value, fewer) == Subset(objects, fewer)
  {
    SubsetIff(objects, columns);
    var r := Subset(objects, columns).value;
    assert forall c <- fewer :: c in Keys(r) && c in Keys(objects) && Lookup(r, c) == Lookup(objects, c);
    assert Selected(r, fewer) == Selected(objects, fewer);
  }

  /** Dropping in two steps is dropping at once whenever the first step is accepted. */
  lemma DropDrop(objects: FeatureObjects, a: seq<string>, b: seq<string>)
    requires Valid(objects) && Drop(objects, a).Success?
    ensures Drop(Drop(objects, a).value, b) == Drop(objects, a + b)
  {
    var keys := Keys(objects);
    DropIff(objects, a);
    WithoutTwice(keys, a, b);
    WithoutMembers(Without(keys, a), b);
    SubsetOfSubset(objects, Without(keys, a), Without(keys, a + b));
  }

  function Assign(objects: FeatureObjects, key: string, f: Feature): Result<FeatureObjects> {
    var named := SetName(f, key);
    if named.Failure? then Failure(named.error) else Success(Put(objects, key, named.value))
  }

  /** Assignment keeps the group valid, changes the one entry and keeps or appends its key. */
  lemma AssignIsValid(objects: FeatureObjects, key: string, f: Feature)
    requires Valid(objects) && Assign(objects, key, f).Success?
    ensures var r, keys := Assign(objects, key, f).value, Keys(objects);
            && Valid(r) && Keys(r) == (if key in keys then keys else keys + [key])
            && Lookup(r, key) == SetName(f, key).value
            && forall k <- keys :: k != key ==> Lookup(r, k) == Lookup(objects, k)
  {
    var r, keys := Assign(objects, key, f).value, Keys(objects);
    assert Keys(r) == if key in keys then keys else keys + [key];
    forall k | k in keys && k != key ensures Lookup(r, k) == Lookup(objects, k) {
      var i, j := IndexOf(keys, k), IndexOf(Keys(r), k);
      assert Keys(r)[i] == k;
    }
  }

  /** Assignment through a (mask, name) key: the stored feature is changed and, having the group as its
      parent, assigned to its own name again. */
  function AssignMasked(objects: FeatureObjects, mask: nat, key: string): Result<FeatureObjects> {
    if key !in Keys(objects) then Failure(KeyError)
    else Assign(objects, key, AssignedWhere(Lookup(objects, key), mask))
  }

  /** It is refused only for an unknown name, keeps every key, and changes only that feature's node,
      which stays named. */
  lemma AssignMaskedIff(objects: FeatureObjects, mask: nat, key: string)
    requires Valid(objects)
    ensures AssignMasked(objects, mask, key).Success? <==> key in Keys(objects)
    ensures AssignMasked(objects, mask, key).Failure? ==> AssignMasked(objects, mask, key).error == KeyError
    ensures AssignMasked(objects, mask, key).Success? ==>
              var r, f := AssignMasked(objects, mask, key).value, Lookup(objects, key);
              && Valid(r) && Keys(r) == Keys(objects)
              && Lookup(r, key) == f.(node := Alias(key, Conditional(f.node, mask)))
              && forall k <- Keys(objects) :: k != key ==> Lookup(r, k) == Lookup(objects, k)
  {
    if key in Keys(objects) {
      AssignIsValid(objects, key, AssignedWhere(Lookup(objects, key), mask));
    }
  }

  /** A user's operations on a group; a refused one raises and leaves the group as it was. */
  datatype Operation =
    | SubsetTo(columns: seq<string>)
    | DropNames(names: seq<string>)
    | SetItem(key: string, feature: Feature)
    | SetMasked(mask: nat, key: string)

  function Outcome(objects: FeatureObjects, op: Operation): Result<FeatureObjects> {
    match op
    case SubsetTo(columns) => Subset(objects, columns)
    case DropNames(names) => Drop(objects, names)
    case SetItem(key, f) => Assign(objects, key, f)
    case SetMasked(mask, key) => AssignMasked(objects, mask, key)
  }

  function Next(objects: FeatureObjects, op: Operation): FeatureObjects {
    var r := Outcome(objects, op);
    if r.Success? then r.value else objects
  }

  function Run(objects: FeatureObjects, ops: seq<Operation>): FeatureObjects
    decreases |ops|
  {
    if ops == [] then objects else Run(Next(objects, ops[0]), ops[1..])
  }

  lemma NextIsValid(objects: FeatureObjects, op: Operation)
    requires Valid(objects)
    ensures Valid(Next(objects, op))
  {
    match op
    case SubsetTo(columns) => SubsetIff(objects, columns);
    case DropNames(names) => DropIff(objects, names);
    case SetItem(key, f) => if Assign(objects, key, f).Success? { AssignIsValid(objects, key, f); }
    case SetMasked(mask, key) => AssignMaskedIff(objects, mask, key);
  }

  /** Both names are in the group before and after every one of the operations. */
  predicate Survive(objects: FeatureObjects, ops: seq<Operation>, a: string, b: string)
    decreases |ops|
  {
    a in Keys(objects) && b in Keys(objects) && (ops != [] ==> Survive(Next(objects, ops[0]), ops[1..], a, b))
  }

  lemma {:induction false} WithoutKeepsOrder(keys: seq<string>, names: seq<string>, a: string, b: string)
    requires Precedes(keys, a, b) && a !in names && b !in names
    ensures Precedes(Without(keys, names), a, b)
  {
    var rest := keys[1..];
    PrecedesInTail(keys, a, b);
    WithoutMembers(rest, names);
    if Precedes(rest, a, b) { WithoutKeepsOrder(rest, names, a, b); }
    if keys[0] !in names { PrecedesInFront(keys[0], Without(rest, names), a, b); }
  }

  lemma NextKeepsOrder(objects: FeatureObjects, op: Operation, a: string, b: string)
    requires Valid(objects) && !op.SubsetTo? && Precedes(Keys(objects), a, b)
    requires a in Keys(Next(objects, op)) && b in Keys(Next(objects, op))
    ensures Precedes(Keys(Next(objects, op)), a, b)
  {
    var keys := Keys(objects);
    match op
    case DropNames(names) =>
      DropIff(objects, names);
      WithoutMembers(keys, names);
      if Drop(objects, names).Success? { WithoutKeepsOrder(keys, names, a, b); }
    case SetItem(key, f) =>
      if Assign(objects, key, f).Success? {
        AssignIsValid(objects, key, f);
        var i, j :| 0 <= i < j < |keys| && keys[i] == a && keys[j] == b;
        assert Keys(Next(objects, op))[i] == a && Keys(Next(objects, op))[j] == b;
      }
    case SetMasked(mask, key) => AssignMaskedIff(objects, mask, key);
  }

  /** Over any run the group stays valid, and as long as no subset reorders it, keys that stay in the
      group keep their order. */
  lemma {:induction false} RunKeepsGroup(objects: FeatureObjects, ops: seq<Operation>, a: string, b: string)
    requires Valid(objects)
    ensures Valid(Run(objects, ops))
    ensures (forall op <- ops :: !op.SubsetTo?) && Survive(objects, ops, a, b) && Precedes(Keys(objects), a, b)
            ==> Precedes(Keys(Run(objects, ops)), a, b)
    decreases |ops|
  {
    if ops != [] {
      NextIsValid(objects, ops[0]);
      if (forall op <- ops :: !op.SubsetTo?) && Survive(objects, ops, a, b) && Precedes(Keys(objects), a, b) {
        assert ops[0] in ops && Survive(Next(objects, ops[0]), ops[1..], a, b);
        NextKeepsOrder(objects, ops[0], a, b);
      }
      RunKeepsGroup(Next(objects, ops[0]), ops[1..], a, b);
    }
  }

  /** The node of the feature is named by its key, so no other key accepts it. */
  predicate Sealed(entry: (string, Feature)) {
    NodeName(entry.1.node) == Some(entry.0)
  }

  lemma EntryAt(objects: FeatureObjects, key: string)
    requires key in Keys(objects)
    ensures (key, Lookup(objects, key)) in objects
  {
    assert objects[IndexOf(Keys(objects), key)] == (key, Lookup(objects, key));
  }

  lemma SubsetEntries(objects: FeatureObjects, columns: seq<string>)
    requires Valid(objects) && Subset(objects, columns).Success?
    ensures forall x <- Subset(objects, columns).value :: x in objects
  {
    var features := Selected(objects, columns);
    var r := Subset(objects, columns).value;
    SelectedLeaves(objects, columns);
    forall x | x in r ensures x in objects {
      var i :| 0 <= i < |r| && r[i] == x;
      EntryAt(objects, columns[i]);
    }
  }

  lemma PutEntries(objects: FeatureObjects, key: string, f: Feature)
    requires Assign(objects, key, f).Success?
    ensures forall x <- Assign(objects, key, f).value :: x in objects || Sealed(x)
  {
    var r := Assign(objects, key, f).value;
    forall x | x in r ensures x in objects || Sealed(x) {
      var i :| 0 <= i < |r| && r[i] == x;
      assert x == (key, SetName(f, key).value) || x == objects[i];
    }
  }

  lemma NextEntries(objects: FeatureObjects, op: Operation)
    requires Valid(objects)
    ensures forall x <- Next(objects, op) :: x in objects || Sealed(x)
  {
    if Outcome(objects, op).Success? {
      match op
      case SubsetTo(columns) => SubsetEntries(objects, columns);
      case DropNames(names) => SubsetEntries(objects, Without(Keys(objects), names));
      case SetItem(key, f) => PutEntries(objects, key, f);
      case SetMasked(mask, key) => PutEntries(objects, key, AssignedWhere(Lookup(objects, key), mask));
    }
  }

  lemma {:induction false} RunEntries(objects: FeatureObjects, ops: seq<Operation>)
    requires Valid(objects)
    ensures forall x <- Run(objects, ops) :: x in objects || Sealed(x)
    decreases |ops|
  {
    if ops != [] {
      NextIsValid(objects, ops[0]);
      NextEntries(objects, ops[0]);
      RunEntries(Next(objects, ops[0]), ops[1..]);
    }
  }

  /** Over any run no feature of the group is accepted under another key, but for one that was in the
      group from the start and whose node has been unnamed, or named otherwise, all the time. */
  lemma RunNeverRenames(objects: FeatureObjects, ops: seq<Operation>, x: (string, Feature), other: string)
    requires Valid(objects) && x in Run(objects, ops) && other != x.0
    ensures SetName(x.1, other).Success? <==> x in objects && NodeName(x.1.node) in {None, Some(other)}
    ensures (forall y <- objects :: Sealed(y)) ==> SetName(x.1, other) == Failure(ValueError)
  {
    RunEntries(objects, ops);
  }

  /** Setting the name of a feature through a reference taken out of the group. */
  function RenameInside(objects: FeatureObjects, key: string, name: string): Result<FeatureObjects> {
    if key !in Keys(objects) then Failure(KeyError)
    else
      var named :- SetName(Lookup(objects, key), name);
      Success(objects[IndexOf(Keys(objects), key) := (key, named)])
  }

  /** It breaks the invariant exactly when it is accepted with another name, which takes a node that is
      unnamed or already has that name. */
  lemma RenameInsideIff(objects: FeatureObjects, key: string, name: string)
    requires Valid(objects) && key in Keys(objects)
    ensures RenameInside(objects, key, name).Success?
            <==> NodeName(Lookup(objects, key).node) in {None, Some(name)}
    ensures RenameInside(objects, key, name).Success? ==>
              (Valid(RenameInside(objects, key, name).value) <==> name == key)
  {
    var r := RenameInside(objects, key, name);
    if r.Success? {
      assert Keys(r.value) == Keys(objects);
      assert r.value[IndexOf(Keys(objects), key)].1.name == Some(name);
    }
  }

  /** A group whose feature was renamed inside it no longer gives way to a feature of its key: flattened
      after one it is accepted, and that feature is lost. */
  lemma RenamedInsideOverwrites(h: Feature, f: Feature, key: string, other: string)
    requires h.name == f.name == Some(key) && h.id != f.id && other != key && NodeName(f.node).None?
    ensures Construct([Single(f)]) == Success([(key, f)])
    ensures var g := RenameInside([(key, f)], key, other);
            && g.Success?
            && Flattened([Single(h), Group(g.value)]) == Success([(key, SetName(f, other).value)])
  {
    var one: FeatureObjects := [(key, f)];
    assert Keys(one) == [key];
    assert LeavesUpTo([Single(f)], 0) == [] && Leaves([Single(f)]) == [DirectLeaf(f)];
    assert ObjectsOf([DirectLeaf(f)]) == one;
    var renamed := SetName(f, other).value;
    var g := RenameInside(one, key, other).value;
    assert g == [(key, renamed)];
    LeavesOfTwo(Single(h), Group(g));
    var a, b := DirectLeaf(h), Leaf(key, renamed, false);
    assert ItemLeaves(Group(g)) == [b] && Leaves([Single(h), Group(g)]) == [a, b];
    assert [a, b][..1] == [a] && [a][..0] == [];
    assert Passes([a, b], 0) && Passes([a, b], 1);
    var first: FeatureObjects := [(key, h)];
    assert |Keys(first)| == 1 && Keys(first)[0] == key;
    assert Keys([]) == [] && Stored([a]) == first;
    assert Stored([a, b]) == Put(first, key, renamed) == [(key, renamed)];
  }

  lemma WithoutOfTwo(x: string, y: string)
    requires x != y
    ensures Without([x, y], []) == [x, y] && Without([x, y], [x]) == [y]
  {
    assert [x, y][1..] == [y] && [y][1..] == [];
    assert Without([y], []) == [y] && Without([y], [x]) == [y];
  }

  lemma TwoOfOneId(g: FeatureObjects, x: string, y: string)
    requires Valid(g) && x != y && Keys(g) == [x, y] && Lookup(g, x).id == Lookup(g, y).id
    ensures Drop(g, []) == Failure(ValueError) && Drop(g, [x]).Success?
  {
    WithoutOfTwo(x, y);
    DropIff(g, []);
    DropIff(g, [x]);
  }

  /** An unnamed feature stored under two names leaves two features of one id in the group, and
      from then on dropping nothing is refused, although dropping one of the two is not. */
  lemma SharedIdBlocksDrop(f: Feature, x: string, y: string)
    requires NodeName(f.node).None? && x != y
    ensures var g := Next(Next([], SetItem(x, f)), SetItem(y, f));
            Keys(g) == [x, y] && Drop(g, []) == Failure(ValueError) && Drop(g, [x]).Success?
  {
    var one := Next([], SetItem(x, f));
    assert one == [(x, SetName(f, x).value)] && Keys(one) == [x];
    var g := Next(one, SetItem(y, f));
    assert g == one + [(y, SetName(f, y).value)];
    NextIsValid([], SetItem(x, f));
    NextIsValid(one, SetItem(y, f));
    assert Keys(g) == [x, y];
    TwoOfOneId(g, x, y);
  }

  /** The collection a user edits; saving it is the business of FeatureListReload. */
  class FeatureGroup {
    var featureObjects: FeatureObjects

    constructor (objects: FeatureObjects)
      requires Valid(objects)
      ensures featureObjects == objects
    {
      featureObjects := objects;
    }

    method SetItem(key: string, value: Feature) returns (r: Result<()>)
      requires Valid(featureObjects)
      modifies this
      ensures Valid(featureObjects)
      ensures featureObjects == Next(old(featureObjects), Operation.SetItem(key, value))
      ensures r.Success? <==> NodeName(value.node) in {None, Some(key)}
      ensures r.Failure? ==> r.error == ValueError && featureObjects == old(featureObjects)
      ensures r.Success? ==> key in Keys(featureObjects) && Lookup(featureObjects, key).name == Some(key)
    {
      var named := SetName(value, key);
      if named.Failure? {
        return Failure(named.error);
      }
      AssignIsValid(featureObjects, key, value);
      featureObjects := Put(featureObjects, key, named.value);
      r := Success(());
    }

    method SetMaskedItem(mask: nat, key: string) returns (r: Result<()>)
      requires Valid(featureObjects)
      modifies this
      ensures Valid(featureObjects)
      ensures featureObjects == Next(old(featureObjects), SetMasked(mask, key))
      ensures r.Success? <==> key in Keys(old(featureObjects))
      ensures r.Failure? ==> r.error == KeyError && featureObjects == old(featureObjects)
    {
      if key !in Keys(featureObjects) {
        return Failure(KeyError);
      }
      var feature := AssignedWhere(Lookup(featureObjects, key), mask);
      AssignMaskedIff(featureObjects, mask, key);
      r := SetItem(key, feature);
    }

    method DropItems(names: seq<string>) returns (r: Result<FeatureGroup>)
      requires Valid(featureObjects)
      ensures r.Success? <==> Drop(featureObjects, names).Success?
      ensures r.Success? ==> fresh(r.value) && Valid(r.value.featureObjects)
      ensures r.Success? ==> r.value.featureObjects == Drop(featureObjects, names).value
    {
      var columns := Without(Keys(featureObjects), names);
      DropIff(featureObjects, names);
      var items := Singles(Selected(featureObjects, columns));
      FlattenedIsConstruct(items);
      var objects := FlattenItems(items);
      if objects.Failure? {
        return Failure(objects.error);
      }
      var g := new FeatureGroup(objects.value);
      r := Success(g);
    }
  }
}
