/** Validation of aggregation windows and the feature group they make
    (featurebyte/api/window_aggregator.py, window_validator.py, aggregator/base_aggregator.py). */
module Windows {
  import Arithmetic
  import opened Sequences
  import opened Wrappers
  import G = FeatureGroups

  /** Seconds of a duration string; None where the parser refuses it. Never negative. */
  type Parser = string -> Option<nat>

  const UPPER_BOUND_SECONDS := 365 * 24 * 60 * 60

  /** `validate_window` */
  function ValidateWindow(parse: Parser, window: string, frequency: string): Result<()> {
    var w, f := parse(window), parse(frequency);
    if w.None? || f.None? then Failure(ValueError)
    else if w.value < f.value then Failure(ValueError)
    else if w.value > UPPER_BOUND_SECONDS then Failure(ValueError)
    else if f.value == 0 then Failure(ZeroDivisionError)
    else if w.value % f.value != 0 then Failure(ValueError)
    else Success(())
  }

  /** What an accepted window is: a whole number of periods, at least one, and at most 365 days. */
  ghost predicate WholePeriods(parse: Parser, window: string, frequency: string) {
    && parse(window).Some? && parse(frequency).Some? && parse(frequency).value > 0
    && parse(window).value <= UPPER_BOUND_SECONDS
    && exists k: nat :: k >= 1 && parse(window).value == k * parse(frequency).value
  }

  lemma Positive(k: int, f: nat)
    requires f > 0 && f <= k * f
    ensures k >= 1
  {
  }

  lemma Multiple(k: nat, f: nat)
    requires f > 0 && k >= 1
    ensures (k * f) % f == 0 && f <= k * f
  {
    Arithmetic.MultipleMod(k, f);
    Arithmetic.MulBounds(f, k);
  }

  lemma AcceptedIff(parse: Parser, window: string, frequency: string)
    ensures ValidateWindow(parse, window, frequency).Success? <==> WholePeriods(parse, window, frequency)
  {
    if parse(window).Some? && parse(frequency).Some? && parse(frequency).value > 0 {
      var w, f := parse(window).value, parse(frequency).value;
      if w % f == 0 && f <= w {
        var k := w / f;
        assert w == k * f;
        Positive(k, f);
      }
      if WholePeriods(parse, window, frequency) {
        var k: nat :| k >= 1 && w == k * f;
        Multiple(k, f);
      }
    }
  }

  const AGGREGATIONS := ["sum", "avg", "min", "max", "count", "na_count", "std", "latest"]

  /** What an item view knows of its event table: the event id column, and the columns derived from the
      event table alone. */
  datatype EventSide = EventSide(eventIdColumn: string, eventOnly: set<string>)

  /** The view and the grouping an aggregation starts from; only item views have an event side. */
  datatype GroupBy = GroupBy(
    viewColumns: seq<string>,
    featureStore: nat,
    eventSide: Option<EventSide>,
    defaultFrequency: Option<string>,
    keys: seq<string>,
    category: Option<string>)

  /** The arguments of `aggregate_over`; a window that is None is unbounded. */
  datatype Request = Request(
    aggregation: Option<string>,
    valueColumn: Option<string>,
    windows: Option<seq<Option<string>>>,
    featureNames: Option<seq<string>>,
    frequency: Option<string>,        // of the explicit job setting
    fillValue: bool,                  // whether one is given
    skipFillNa: bool)

  /** `_validate_method_and_value_column` */
  function ValidateMethod(g: GroupBy, r: Request): Result<()> {
    if r.aggregation.None? || r.aggregation.value !in AGGREGATIONS then Failure(ValueError)
    else if r.aggregation.value == "count" then
      if r.valueColumn.Some? then Failure(ValueError) else Success(())
    else if r.valueColumn.None? then Failure(ValueError)
    else if r.valueColumn.value !in g.viewColumns then Failure(KeyError)
    else Success(())
  }

  /** `_get_job_setting_params` */
  function Frequency(g: GroupBy, r: Request): Option<string> {
    if r.frequency.Some? then r.frequency else g.defaultFrequency
  }

  function ToSet<T(==)>(xs: seq<T>): set<T> {
    set x | x in xs
  }

  /** What acceptance of names and windows means: they correspond one to one by position; at most one
      window is unbounded, and only for an uncategorised "latest"; all others are whole periods. */
  ghost predicate WellFormed(parse: Parser, g: GroupBy, r: Request) {
    && r.windows.Some? && r.featureNames.Some?
    && var windows, names := r.windows.value, r.featureNames.value;
    && |windows| == |names| >= 1
    && NoDuplicates(names) && NoDuplicates(windows)
    && (None in windows ==> r.aggregation == Some("latest") && g.category.None?)
    && Frequency(g, r).Some?
    && (forall i :: 0 <= i < |windows| && windows[i].Some?
          ==> WholePeriods(parse, windows[i].value, Frequency(g, r).value))
  }

  ghost predicate Accepted(parse: Parser, g: GroupBy, r: Request) {
    ValidateMethod(g, r).Success? && !(r.fillValue && r.skipFillNa) && WellFormed(parse, g, r)
  }

  /** A list is as long as its set exactly when it repeats nothing. */
  lemma {:induction false} SetSizeIff<T>(xs: seq<T>)
    ensures |ToSet(xs)| <= |xs|
    ensures |ToSet(xs)| == |xs| <==> NoDuplicates(xs)
  {
    if xs != [] {
      var front, x := xs[..|xs| - 1], xs[|xs| - 1];
      SetSizeIff(front);
      assert xs == front + [x];
      assert ToSet(xs) == ToSet(front) + {x};
      assert NoDuplicates(xs) <==> NoDuplicates(front) && x !in front by {
        assert forall i :: 0 <= i < |front| ==> xs[i] == front[i];
        if x in front {
          var i :| 0 <= i < |front| && front[i] == x;
          assert xs[i] == xs[|front|];
        }
      }
    }
  }

  lemma Aggregations(aggregation: Option<string>)
    ensures aggregation.Some? && aggregation.value in AGGREGATIONS <==>
            aggregation in {Some("sum"), Some("avg"), Some("min"), Some("max"), Some("count"), Some("na_count"),
                            Some("std"), Some("latest")}
  {
    assert AGGREGATIONS[0] == "sum" && AGGREGATIONS[1] == "avg" && AGGREGATIONS[2] == "min";
    assert AGGREGATIONS[3] == "max" && AGGREGATIONS[4] == "count" && AGGREGATIONS[5] == "na_count";
    assert AGGREGATIONS[6] == "std" && AGGREGATIONS[7] == "latest";
  }

  /** Acceptance in plain terms: the aggregation is a known one and has a value column of the view
      exactly unless it counts; a fill value is not combined with skipping; the seconds of every window
      are a positive multiple of the period and at most 365 days, where the period is the explicit
      setting's, else the default one; and only an uncategorised "latest" has a window without bound. */
  lemma AcceptedOutright(parse: Parser, g: GroupBy, r: Request)
    ensures Accepted(parse, g, r) <==>
            && r.aggregation in {Some("sum"), Some("avg"), Some("min"), Some("max"), Some("count"), Some("na_count"),
                                 Some("std"), Some("latest")}
            && (r.valueColumn.None? <==> r.aggregation == Some("count"))
            && (r.valueColumn.Some? ==> r.valueColumn.value in g.viewColumns)
            && !(r.fillValue && r.skipFillNa)
            && r.windows.Some? && r.featureNames.Some?
            && |r.windows.value| == |r.featureNames.value| > 0
            && (forall i, j :: 0 <= i < j < |r.windows.value| ==>
                  r.windows.value[i] != r.windows.value[j] && r.featureNames.value[i] != r.featureNames.value[j])
            && (r.frequency.Some? || g.defaultFrequency.Some?)
            && forall i :: 0 <= i < |r.windows.value| ==>
                 match r.windows.value[i]
                 case None => r.aggregation == Some("latest") && g.category == None
                 case Some(window) =>
                   var f := parse(if r.frequency.Some? then r.frequency.value else g.defaultFrequency.value);
                   && f.Some? && f.value > 0 && parse(window).Some?
                   && 0 < parse(window).value <= 31_536_000 && parse(window).value % f.value == 0
  {
    Aggregations(r.aggregation);
    if r.windows.Some? && Frequency(g, r).Some? {
      forall i | 0 <= i < |r.windows.value| && r.windows.value[i].Some?
        ensures var w, f := parse(r.windows.value[i].value), parse(Frequency(g, r).value);
                WholePeriods(parse, r.windows.value[i].value, Frequency(g, r).value) <==>
                && f.Some? && f.value > 0 && w.Some? && 0 < w.value <= 31_536_000 && w.value % f.value == 0
      {
        AcceptedIff(parse, r.windows.value[i].value, Frequency(g, r).value);
      }
    }
  }

  /** `_validate_parameters` */
  method ValidateParameters(parse: Parser, g: GroupBy, r: Request) returns (result: Result<()>)
    ensures result.Success? <==> Accepted(parse, g, r)
    ensures result == Failure(KeyError) <==>
            && r.aggregation.Some? && r.aggregation.value in AGGREGATIONS && r.aggregation.value != "count"
            && r.valueColumn.Some? && r.valueColumn.value !in g.viewColumns
    ensures result.Failure? && result.error != KeyError ==> result.error in {ValueError, ZeroDivisionError}
  {
    result := ValidateMethod(g, r);
    if result.Failure? {
      return;
    }
    if r.fillValue && r.skipFillNa {
      return Failure(ValueError);
    }
    if r.windows.None? || |r.windows.value| == 0 {
      return Failure(ValueError);
    }
    if r.featureNames.None? {
      return Failure(ValueError);
    }
    var windows, names := r.windows.value, r.featureNames.value;
    if |windows| != |names| {
      return Failure(ValueError);
    }
    SetSizeIff(names);
    SetSizeIff(windows);
    if |windows| != |ToSet(names)| || |ToSet(windows)| != |names| {
      return Failure(ValueError);
    }
    if None in windows {
      if r.aggregation != Some("latest") || g.category.Some? {
        return Failure(ValueError);
      }
    }
    var frequency := Frequency(g, r);
    if frequency.None? {
      return Failure(ValueError);
    }
    for i := 0 to |windows|
      invariant forall j :: 0 <= j < i && windows[j].Some? ==> WholePeriods(parse, windows[j].value, frequency.value)
    {
      if windows[i].Some? {
        AcceptedIff(parse, windows[i].value, frequency.value);
        var accepted := ValidateWindow(parse, windows[i].value, frequency.value);
        if accepted.Failure? {
          return accepted;
        }
      }
    }
    result := Success(());
  }

  /** The mask of missing values that `fillna` assigns to. */
  const IS_NULL: nat := 0

  /** `_fill_feature`: counts are filled by default, anything with a value given for it. */
  predicate Fills(g: GroupBy, r: Request) {
    && !r.skipFillNa
    && ((r.aggregation in {Some("count"), Some("na_count")} && g.category.None?) || r.fillValue)
  }

  /** A new feature, named by its projection; filling takes that name away and gives it back as an alias. */
  function ProjectedFeature(name: string, id: nat, featureStore: nat, fills: bool): G.Feature {
    var node := G.Projection(name);
    G.Feature(id, featureStore, Some(name), if fills then G.Alias(name, G.Conditional(node, IS_NULL)) else node)
  }

  lemma FilledIsProjected(name: string, id: nat, featureStore: nat)
    ensures G.SetName(G.AssignedWhere(ProjectedFeature(name, id, featureStore, false), IS_NULL), name)
            == Success(ProjectedFeature(name, id, featureStore, true))
  {
  }

  function Projected(names: seq<string>, firstId: nat, featureStore: nat, fills: bool): seq<G.Feature> {
    seq(|names|, i requires 0 <= i < |names| => ProjectedFeature(names[i], firstId + i, featureStore, fills))
  }

  /** The entry of an aggregated feature: its node is the projection of its name, or where it is filled
      that name given back to the filled projection. */
  predicate IsAggregated(x: (string, G.Feature), id: nat, filled: bool) {
    && x.1.id == id && x.1.name == Some(x.0)
    && x.1.node == if filled then G.Alias(x.0, G.Conditional(G.Projection(x.0), IS_NULL)) else G.Projection(x.0)
  }

  /** The group made of distinct names under new ids is never refused, its keys are the names, and none
      of its features takes another name. */
  lemma ProjectedGroup(names: seq<string>, firstId: nat, featureStore: nat, fills: bool)
    requires NoDuplicates(names)
    ensures var r := G.Construct(G.Singles(Projected(names, firstId, featureStore, fills)));
            r.Success? && G.Keys(r.value) == names
            && (forall x <- r.value :: G.Sealed(x) && x.1.featureStore == featureStore)
            && forall i :: 0 <= i < |r.value| ==> IsAggregated(r.value[i], firstId + i, fills)
  {
    var features := Projected(names, firstId, featureStore, fills);
    G.SinglesLeaves(features);
    var leaves := G.Leaves(G.Singles(features));
    forall i | 0 <= i < |names|
      ensures leaves[i] == G.Leaf(names[i], ProjectedFeature(names[i], firstId + i, featureStore, fills), true)
    {
      assert leaves[i] == G.DirectLeaf(features[i]);
    }
    assert G.Keys(G.ObjectsOf(leaves)) == names;
  }

  /** `_are_columns_derived_only_from_event_table` */
  predicate AllFromEvents(side: EventSide, columns: seq<string>) {
    forall c <- columns :: c in side.eventOnly
  }

  /** `validate_aggregate_over_parameters`: an item view is not grouped by the event id, and what comes
      from the event table alone is to be aggregated in its own view. */
  predicate ViewAccepts(g: GroupBy, r: Request) {
    g.eventSide.Some? ==>
      && g.eventSide.value.eventIdColumn !in g.keys
      && (r.valueColumn.Some? ==> !AllFromEvents(g.eventSide.value, g.keys + [r.valueColumn.value]))
  }

  /** What the view and the type of the value column still refuse once the parameters are accepted. */
  predicate Applicable(supported: (string, Option<string>) -> bool, g: GroupBy, r: Request) {
    && ViewAccepts(g, r)
    && r.aggregation.Some? && supported(r.aggregation.value, r.valueColumn)
    && !(r.fillValue && g.category.Some?)
  }

  /** In an item view: the event id is no key, and the value column or some key is not from the event
      table alone. Everywhere: the aggregation supports the value column, and categories take no fill
      value. */
  lemma ApplicableOutright(supported: (string, Option<string>) -> bool, g: GroupBy, r: Request)
    ensures Applicable(supported, g, r) <==>
            && r.aggregation.Some? && supported(r.aggregation.value, r.valueColumn)
            && (r.fillValue ==> g.category == None)
            && forall side :: g.eventSide == Some(side) ==>
                 && (forall k <- g.keys :: k != side.eventIdColumn)
                 && forall v :: r.valueColumn == Some(v) && v in side.eventOnly ==>
                      exists k <- g.keys :: k !in side.eventOnly
  {
    if g.eventSide.Some? && r.valueColumn.Some? {
      var side, v := g.eventSide.value, r.valueColumn.value;
      assert forall c :: c in g.keys + [v] <==> c in g.keys || c == v;
    }
  }

  /** `aggregate_over`: applicable, accepted parameters always make a group, one feature per window in
      order: the group itself is never refused for its names. */
  method AggregateOver(parse: Parser, supported: (string, Option<string>) -> bool, g: GroupBy, r: Request, firstId: nat)
    returns (group: Result<G.FeatureObjects>)
    ensures group.Success? <==> Accepted(parse, g, r) && Applicable(supported, g, r)
    ensures group.Success? ==> G.Valid(group.value) && Some(G.Keys(group.value)) == r.featureNames
    ensures group.Success? ==> forall x <- group.value :: G.Sealed(x) && x.1.featureStore == g.featureStore
    ensures group.Success? ==>
              var filled := !r.skipFillNa
                && (r.fillValue || (r.aggregation in {Some("count"), Some("na_count")} && g.category == None));
              forall i :: 0 <= i < |group.value| ==> IsAggregated(group.value[i], firstId + i, filled)
  {
    var valid := ValidateParameters(parse, g, r);
    if valid.Failure? {
      return Failure(valid.error);
    }
    if g.eventSide.Some? {
      if g.eventSide.value.eventIdColumn in g.keys {
        return Failure(ValueError);
      }
      if r.valueColumn.Some? && AllFromEvents(g.eventSide.value, g.keys + [r.valueColumn.value]) {
        return Failure(ValueError);
      }
    }
    assert ViewAccepts(g, r);
    var items: seq<G.Item> := [];
    var names, fills := r.featureNames.value, Fills(g, r);
    for i := 0 to |names|
      invariant |items| == i
      invariant forall k :: 0 <= k < i ==>
                  items[k] == G.Single(ProjectedFeature(names[k], firstId + k, g.featureStore, fills))
      invariant i > 0 ==> supported(r.aggregation.value, r.valueColumn) && !(r.fillValue && g.category.Some?)
    {
      if !supported(r.aggregation.value, r.valueColumn) {
        return Failure(ValueError);
      }
      var feature := G.Feature(firstId + i, g.featureStore, Some(names[i]), G.Projection(names[i]));
      if !r.skipFillNa {
        if r.fillValue && g.category.Some? {
          return Failure(ValueError);
        }
        if fills {
          FilledIsProjected(names[i], firstId + i, g.featureStore);
          feature := G.SetName(G.AssignedWhere(feature, IS_NULL), names[i]).value;
        }
      }
      assert feature == ProjectedFeature(names[i], firstId + i, g.featureStore, fills);
      items := items + [G.Single(feature)];
    }
    assert items == G.Singles(Projected(names, firstId, g.featureStore, fills));
    ProjectedGroup(names, firstId, g.featureStore, fills);
    G.FlattenedIsConstruct(items);
    group := G.FlattenItems(items);
    G.ConstructIsValid(items);
  }

  /** Windows are compared as strings: two spellings of one duration are both accepted. */
  lemma SameDurationTwice(parse: Parser, g: GroupBy, r: Request)
    requires parse("1h") == parse("60m") == Some(3600) && "x" in g.viewColumns
    requires r == Request(Some("sum"), Some("x"), Some([Some("1h"), Some("60m")]), Some(["a", "b"]), Some("60m"),
                          false, false)
    ensures Accepted(parse, g, r)
  {
    assert AGGREGATIONS[0] == "sum" && "sum" != "count" by { assert "sum"[0] != "count"[0]; }
    assert 3600 == 1 * 3600;
    assert WholePeriods(parse, "1h", "60m") && WholePeriods(parse, "60m", "60m");
    assert "1h" != "60m" by { assert |"1h"| != |"60m"|; }
    assert "a" != "b" by { assert "a"[0] != "b"[0]; }
  }
}
