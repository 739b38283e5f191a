/** View construction in automatic and manual mode, and the replay of an automatic view from its
    recorded metadata (featurebyte/api/event_table.py, item_table.py, base_table.py and
    featurebyte/query_graph/model/common_table.py, table.py, graph.py). */
module Views {
  import opened Wrappers
  import opened Cleaning
  import opened Sequences
  import opened Tables

  datatype Mode = Auto | Manual

  datatype ColumnCleaning = ColumnCleaning(column: string, operations: seq<CleaningOperation>)

  datatype EventTable = EventTable(
    id: nat,
    columns: Columns,
    recordCreationTimestampColumn: Option<string>,
    timestampColumn: string,
    eventIdColumn: string,
    timezoneOffsetColumn: Option<string>)

  datatype ItemTable = ItemTable(
    id: nat,
    columns: Columns,
    recordCreationTimestampColumn: Option<string>,
    eventIdColumn: string,
    eventTableId: nat)

  /** The operations a column is cleaned with; no list and the empty list both clean nothing. */
  function OperationsOf(c: ColumnInfo): seq<CleaningOperation> {
    c.criticalDataInfo.GetOr([])
  }

  /** Default cleaning operations of a table: its columns that have any, in order. */
  function DefaultCleaning(columns: Columns): seq<ColumnCleaning> {
    if columns == [] then []
    else if OperationsOf(columns[0]) != [] then
      [ColumnCleaning(columns[0].name, OperationsOf(columns[0]))] + DefaultCleaning(columns[1..])
    else DefaultCleaning(columns[1..])
  }

  /** The dictionary of `clone`: the last entry for a column counts. */
  function Given(cleaning: seq<ColumnCleaning>, column: string): Option<seq<CleaningOperation>> {
    if cleaning == [] then None
    else
      var later := Given(cleaning[1..], column);
      if later.Some? then later
      else if cleaning[0].column == column then Some(cleaning[0].operations)
      else None
  }

  /** The columns `clone` makes: the named ones get their operations and all others are cleared. */
  function Cloned(columns: Columns, cleaning: seq<ColumnCleaning>): Columns {
    seq(|columns|, i requires 0 <= i < |columns| =>
      columns[i].(criticalDataInfo := Given(cleaning, columns[i].name)))
  }

  /** Every list given for a column passes the validator of critical data info; `clone` runs it again. */
  predicate Acceptable(columns: Columns, cleaning: seq<ColumnCleaning>) {
    forall i :: 0 <= i < |columns| ==> ValidOperations(Given(cleaning, columns[i].name).GetOr([]))
  }

  /** `clone` */
  function Clone(columns: Columns, cleaning: seq<ColumnCleaning>): Result<Columns> {
    if Acceptable(columns, cleaning) then Success(Cloned(columns, cleaning)) else Failure(ValueError)
  }

  /** What the validators guarantee of every table's columns. */
  predicate ValidColumns(columns: Columns) {
    UniqueNames(columns) && forall i :: 0 <= i < |columns| ==> ValidOperations(OperationsOf(columns[i]))
  }

  /** `prepare_view_columns_info` */
  function Kept(columns: Columns, drop: seq<string>): Columns {
    if columns == [] then []
    else if columns[0].name in drop then Kept(columns[1..], drop)
    else [columns[0]] + Kept(columns[1..], drop)
  }

  function Names(columns: Columns): seq<string> {
    seq(|columns|, i requires 0 <= i < |columns| => columns[i].name)
  }

  /** `_prepare_table_data_and_column_cleaning_operations` */
  function Prepare(columns: Columns, cleaning: seq<ColumnCleaning>, mode: Mode)
    : Result<(Columns, seq<ColumnCleaning>)>
  {
    if mode == Manual then
      var cloned :- Clone(columns, cleaning);
      Success((cloned, cleaning))
    else
      Success((columns, DefaultCleaning(columns)))
  }

  /** In automatic mode the record creation timestamp is dropped too. */
  function Dropped(drop: seq<string>, special: Option<string>, mode: Mode): seq<string> {
    if mode == Auto && special.Some? && special.value != "" then drop + [special.value] else drop
  }

  datatype Metadata = Metadata(mode: Mode, drop: seq<string>, cleaning: seq<ColumnCleaning>, tableId: nat)

  /** How the graph node of a view cleans one column. */
  datatype Recipe = Recipe(column: string, dtype: string, operations: seq<CleaningOperation>)

  /** `construct_cleaning_recipe_node`, on the columns that are kept. */
  function Recipes(columns: Columns): seq<Recipe> {
    if columns == [] then []
    else if OperationsOf(columns[0]) != [] then
      [Recipe(columns[0].name, columns[0].dtype, OperationsOf(columns[0]))] + Recipes(columns[1..])
    else Recipes(columns[1..])
  }

  /** A view: the columns it projects, the cleaning recipe of its graph node, the column information
      it carries, and the metadata recorded for replay. */
  datatype EventView = EventView(
    columns: seq<string>,
    recipe: seq<Recipe>,
    columnsInfo: Columns,
    metadata: Metadata)

  /** The parameters of `get_view`; an omitted one is an empty list. */
  datatype Parameters = Parameters(mode: Mode, drop: seq<string>, cleaning: seq<ColumnCleaning>)

  const AUTOMATIC := Parameters(Auto, [], [])

  function ViewOf(data: Columns, tableId: nat, mode: Mode, drop: seq<string>, cleaning: seq<ColumnCleaning>)
    : EventView
  {
    var kept := Kept(data, drop);
    EventView(Names(kept), Recipes(kept), kept, Metadata(mode, drop, cleaning, tableId))
  }

  function BuildView(columns: Columns, special: Option<string>, tableId: nat, p: Parameters): Result<EventView> {
    var prepared :- Prepare(columns, p.cleaning, p.mode);
    Success(ViewOf(prepared.0, tableId, p.mode, Dropped(p.drop, special, p.mode), prepared.1))
  }

  /** `EventTable.get_view`; automatic mode refuses every parameter. */
  function EventGetView(t: EventTable, p: Parameters): Result<EventView> {
    if p.mode == Auto && p != AUTOMATIC then Failure(ValueError)
    else BuildView(t.columns, t.recordCreationTimestampColumn, t.id, p)
  }

  /** Manual parameters that replay what was recorded. */
  function Replay(m: Metadata): Parameters {
    Parameters(Manual, m.drop, m.cleaning)
  }

  /** Column information up to the difference between no cleaning list and an empty one. */
  function NormalizedColumn(c: ColumnInfo): ColumnInfo {
    if OperationsOf(c) == [] then c.(criticalDataInfo := None) else c
  }

  function Normalized(columns: Columns): Columns {
    if columns == [] then [] else [NormalizedColumn(columns[0])] + Normalized(columns[1..])
  }

  lemma {:induction false} NormalizedAt(columns: Columns)
    ensures |Normalized(columns)| == |columns|
    ensures forall i :: 0 <= i < |columns| ==> Normalized(columns)[i] == NormalizedColumn(columns[i])
  {
    if columns != [] {
      NormalizedAt(columns[1..]);
      assert forall i :: 1 <= i < |columns| ==> Normalized(columns)[i] == Normalized(columns[1..])[i - 1];
    }
  }

  lemma {:induction false} NotGiven(columns: Columns, name: string)
    requires forall i :: 0 <= i < |columns| ==> columns[i].name != name
    ensures Given(DefaultCleaning(columns), name) == None
  {
    if columns != [] { NotGiven(columns[1..], name); }
  }

  lemma {:induction false} GivenDefault(columns: Columns, i: nat)
    requires UniqueNames(columns) && i < |columns|
    ensures Given(DefaultCleaning(columns), columns[i].name)
            == if OperationsOf(columns[i]) == [] then None else columns[i].criticalDataInfo
  {
    var rest := columns[1..];
    assert forall j :: 0 <= j < |rest| ==> rest[j] == columns[j + 1];
    if i == 0 {
      NotGiven(rest, columns[0].name);
    } else {
      GivenDefault(rest, i - 1);
    }
  }

  /** Replaying the default operations through `clone` is accepted and restores them. */
  lemma CloneRestoresDefaults(columns: Columns)
    requires ValidColumns(columns)
    ensures Clone(columns, DefaultCleaning(columns)) == Success(Normalized(columns))
  {
    forall i | 0 <= i < |columns|
      ensures Given(DefaultCleaning(columns), columns[i].name)
              == if OperationsOf(columns[i]) == [] then None else columns[i].criticalDataInfo
    {
      GivenDefault(columns, i);
    }
    NormalizedAt(columns);
    assert Cloned(columns, DefaultCleaning(columns)) == Normalized(columns);
  }

  lemma {:induction false} NormalizedKept(columns: Columns, drop: seq<string>)
    ensures Kept(Normalized(columns), drop) == Normalized(Kept(columns, drop))
  {
    if columns != [] {
      var rest := columns[1..];
      NormalizedKept(rest, drop);
      assert Normalized(columns)[1..] == Normalized(rest);
      if columns[0].name !in drop {
        assert Kept(columns, drop)[1..] == Kept(rest, drop);
      }
    }
  }

  lemma {:induction false} NormalizedSame(columns: Columns)
    ensures Names(Normalized(columns)) == Names(columns)
    ensures Recipes(Normalized(columns)) == Recipes(columns)
    ensures Normalized(Normalized(columns)) == Normalized(columns)
  {
    NormalizedAt(columns);
    if columns != [] {
      NormalizedSame(columns[1..]);
      assert Normalized(columns)[1..] == Normalized(columns[1..]);
    }
  }

  lemma NormalizedUnchangedIff(columns: Columns)
    ensures Normalized(columns) == columns <==> forall c <- columns :: c.criticalDataInfo != Some([])
  {
    NormalizedAt(columns);
    if forall c <- columns :: c.criticalDataInfo != Some([]) {
      forall i | 0 <= i < |columns| ensures Normalized(columns)[i] == columns[i] {
        assert columns[i] in columns;
      }
    } else {
      var i :| 0 <= i < |columns| && columns[i].criticalDataInfo == Some([]);
      assert Normalized(columns)[i] != columns[i];
    }
  }

  /** Same columns and cleaning, same recorded lists; column information equal up to empty lists. */
  ghost predicate SameView(a: EventView, b: EventView) {
    && a.columns == b.columns && a.recipe == b.recipe
    && Normalized(a.columnsInfo) == Normalized(b.columnsInfo)
    && b.metadata == a.metadata.(mode := b.metadata.mode)
  }

  lemma SameAfterNormalizing(columns: Columns, tableId: nat, drop: seq<string>, cleaning: seq<ColumnCleaning>)
    ensures SameView(ViewOf(columns, tableId, Auto, drop, cleaning),
                     ViewOf(Normalized(columns), tableId, Manual, drop, cleaning))
    ensures Kept(Normalized(columns), drop) == Normalized(Kept(columns, drop))
  {
    NormalizedKept(columns, drop);
    NormalizedSame(Kept(columns, drop));
  }

  /** An automatic view rebuilt in manual mode from its metadata is the same view. The column
      information is literally the same exactly when no kept column has an empty cleaning list. */
  lemma BuildReplays(columns: Columns, special: Option<string>, tableId: nat)
    requires ValidColumns(columns)
    ensures BuildView(columns, special, tableId, AUTOMATIC).Success?
    ensures var auto := BuildView(columns, special, tableId, AUTOMATIC).value;
            var replay := BuildView(columns, special, tableId, Replay(auto.metadata));
            && replay.Success? && SameView(auto, replay.value)
            && replay.value.columnsInfo == Normalized(auto.columnsInfo)
            && (replay.value.columnsInfo == auto.columnsInfo
                <==> forall c <- auto.columnsInfo :: c.criticalDataInfo != Some([]))
  {
    var auto := BuildView(columns, special, tableId, AUTOMATIC).value;
    CloneRestoresDefaults(columns);
    SameAfterNormalizing(columns, tableId, auto.metadata.drop, auto.metadata.cleaning);
    NormalizedUnchangedIff(auto.columnsInfo);
  }

  lemma EventViewReplays(t: EventTable)
    requires ValidColumns(t.columns)
    ensures EventGetView(t, AUTOMATIC).Success?
    ensures var auto := EventGetView(t, AUTOMATIC).value;
            var replay := EventGetView(t, Replay(auto.metadata));
            replay.Success? && SameView(auto, replay.value)
  {
    BuildReplays(t.columns, t.recordCreationTimestampColumn, t.id);
  }

  /** Adds a suffix to column names unless there is none. */
  function Suffixed(names: seq<string>, suffix: string): seq<string> {
    seq(|names|, i requires 0 <= i < |names| => names[i] + suffix)
  }

  function Excluding(names: seq<string>, excluded: string): seq<string> {
    if names == [] then []
    else if names[0] == excluded then Excluding(names[1..], excluded)
    else [names[0]] + Excluding(names[1..], excluded)
  }

  function EntityColumns(columns: Columns): seq<string> {
    if columns == [] then []
    else if columns[0].entityId.Some? then [columns[0].name] + EntityColumns(columns[1..])
    else EntityColumns(columns[1..])
  }

  /** Renamed event columns that the join brings in, with their information. */
  function JoinedInfo(columns: Columns, suffix: string, output: seq<string>): Columns {
    if columns == [] then []
    else
      var c := columns[0].(name := columns[0].name + suffix);
      (if c.name in output then [c] else []) + JoinedInfo(columns[1..], suffix, output)
  }

  datatype ItemMetadata = ItemMetadata(
    view: Metadata,
    eventSuffix: string,
    eventDrop: seq<string>,
    eventCleaning: seq<ColumnCleaning>,
    eventJoin: seq<string>,
    eventTableId: nat)

  datatype ItemView = ItemView(
    item: EventView,
    event: EventView,
    leftOn: string,
    rightOn: string,
    joinInput: seq<string>,
    joinOutput: seq<string>,
    columnsInfo: Columns,
    metadata: ItemMetadata)

  /** The join with the event view: its columns must exist there, must not clash with the item's, and
      none may be asked for twice. */
  function Join(item: EventView, event: EventView, leftOn: string, rightOn: string, suffix: string,
                join: seq<string>, metadata: ItemMetadata): Result<ItemView> {
    var input := Excluding(join, rightOn);
    var output := Suffixed(input, suffix);
    if exists c <- join :: c !in event.columns then Failure(ValueError)
    else if exists c <- output :: c in item.columns then Failure(RepeatedColumnNamesError)
    else if !NoDuplicates(input) then Failure(ValueError)
    else Success(ItemView(item, event, leftOn, rightOn, input, output,
                          item.columnsInfo + JoinedInfo(event.columnsInfo, suffix, output), metadata))
  }

  /** Automatic mode joins the timestamp, the entity columns and the timezone offset column. */
  function JoinColumns(e: EventTable, event: EventView, mode: Mode, eventJoin: seq<string>): seq<string> {
    if mode == Auto then
      [e.timestampColumn] + EntityColumns(event.columnsInfo)
      + (if e.timezoneOffsetColumn.Some? then [e.timezoneOffsetColumn.value] else [])
    else if eventJoin == [] then [e.timestampColumn]
    else eventJoin
  }

  datatype ItemParameters = ItemParameters(
    view: Parameters,
    eventDrop: seq<string>,
    eventCleaning: seq<ColumnCleaning>,
    eventJoin: seq<string>)
  {
    function Event(): Parameters {
      Parameters(view.mode, eventDrop, eventCleaning)
    }
  }

  const AUTOMATIC_ITEM := ItemParameters(AUTOMATIC, [], [], [])

  /** Manual parameters that replay what was recorded. */
  function ReplayItem(m: ItemMetadata): ItemParameters {
    ItemParameters(Replay(m.view), m.eventDrop, m.eventCleaning, m.eventJoin)
  }

  function ItemMetadataOf(item: EventView, event: EventView, e: EventTable, suffix: string, p: ItemParameters)
    : ItemMetadata
  {
    ItemMetadata(item.metadata, suffix,
                 if p.view.mode == Auto then event.metadata.drop else p.eventDrop,
                 if p.view.mode == Auto then event.metadata.cleaning else p.eventCleaning,
                 JoinColumns(e, event, p.view.mode, p.eventJoin), e.id)
  }

  /** `ItemTable.get_view`: the event view is built with the event-side parameters, and automatic mode
      chooses the join columns and records what the event view recorded. */
  function ItemGetView(t: ItemTable, e: EventTable, suffix: string, p: ItemParameters): Result<ItemView> {
    if p.view.mode == Auto && p != AUTOMATIC_ITEM then Failure(ValueError)
    else
      var event :- EventGetView(e, p.Event());
      var item :- BuildView(t.columns, t.recordCreationTimestampColumn, t.id, p.view);
      Join(item, event, t.eventIdColumn, e.eventIdColumn, suffix,
           JoinColumns(e, event, p.view.mode, p.eventJoin), ItemMetadataOf(item, event, e, suffix, p))
  }

  ghost predicate SameItemView(a: ItemView, b: ItemView) {
    && SameView(a.item, b.item) && SameView(a.event, b.event)
    && a.leftOn == b.leftOn && a.rightOn == b.rightOn
    && a.joinInput == b.joinInput && a.joinOutput == b.joinOutput
    && Normalized(a.columnsInfo) == Normalized(b.columnsInfo)
    && b.metadata == a.metadata.(view := b.item.metadata)
  }

  lemma {:induction false} NormalizedJoined(columns: Columns, suffix: string, output: seq<string>)
    ensures Normalized(JoinedInfo(columns, suffix, output)) == JoinedInfo(Normalized(columns), suffix, output)
  {
    if columns != [] {
      NormalizedJoined(columns[1..], suffix, output);
      assert Normalized(columns)[1..] == Normalized(columns[1..]);
      var c, rest := columns[0].(name := columns[0].name + suffix), JoinedInfo(columns[1..], suffix, output);
      assert ([c] + rest)[1..] == rest && [] + rest == rest;
      assert [] + Normalized(rest) == Normalized(rest);
    }
  }

  lemma {:induction false} NormalizedAppends(a: Columns, b: Columns)
    ensures Normalized(a + b) == Normalized(a) + Normalized(b)
  {
    if a == [] {
      assert a + b == b;
    } else {
      assert (a + b)[1..] == a[1..] + b;
      NormalizedAppends(a[1..], b);
    }
  }

  /** Joining two pairs of same views has the same outcome. */
  lemma SameJoin(a: EventView, b: EventView, c: EventView, d: EventView, leftOn: string, rightOn: string,
                 suffix: string, join: seq<string>, m: ItemMetadata)
    requires SameView(a, b) && SameView(c, d)
    requires Join(a, c, leftOn, rightOn, suffix, join, m.(view := a.metadata)).Success?
    ensures var before := Join(a, c, leftOn, rightOn, suffix, join, m.(view := a.metadata));
            var after := Join(b, d, leftOn, rightOn, suffix, join, m.(view := b.metadata));
            after.Success? && SameItemView(before.value, after.value)
  {
    var output := Suffixed(Excluding(join, rightOn), suffix);
    NormalizedJoined(c.columnsInfo, suffix, output);
    NormalizedJoined(d.columnsInfo, suffix, output);
    NormalizedAppends(a.columnsInfo, JoinedInfo(c.columnsInfo, suffix, output));
    NormalizedAppends(b.columnsInfo, JoinedInfo(d.columnsInfo, suffix, output));
  }

  /** An automatic item view, whenever there is one, is rebuilt in manual mode from its item-side and
      event-side metadata. */
  lemma ItemViewReplays(t: ItemTable, e: EventTable, suffix: string)
    requires ValidColumns(t.columns) && ValidColumns(e.columns)
    ensures var auto := ItemGetView(t, e, suffix, AUTOMATIC_ITEM);
            auto.Success? ==>
              var replay := ItemGetView(t, e, auto.value.metadata.eventSuffix, ReplayItem(auto.value.metadata));
              replay.Success? && SameItemView(auto.value, replay.value)
  {
    var auto := ItemGetView(t, e, suffix, AUTOMATIC_ITEM);
    if auto.Success? {
      var m := auto.value.metadata;
      var p := ReplayItem(m);
      BuildReplays(t.columns, t.recordCreationTimestampColumn, t.id);
      EventViewReplays(e);
      var item := BuildView(t.columns, t.recordCreationTimestampColumn, t.id, p.view).value;
      var event := EventGetView(e, p.Event()).value;
      assert JoinColumns(e, event, Manual, m.eventJoin) == m.eventJoin;
      SameJoin(auto.value.item, item, auto.value.event, event, t.eventIdColumn, e.eventIdColumn, suffix,
               m.eventJoin, m);
    }
  }

  lemma SuffixInjective(a: string, b: string, suffix: string)
    ensures a + suffix == b + suffix <==> a == b
  {
    assert (a + suffix)[..|a|] == a && (b + suffix)[..|b|] == b;
  }

  /** The joined event columns are those asked for, renamed, and distinct. */
  lemma {:induction false} JoinedNames(columns: Columns, suffix: string, output: seq<string>)
    requires UniqueNames(columns)
    ensures UniqueNames(JoinedInfo(columns, suffix, output))
    ensures forall c <- JoinedInfo(columns, suffix, output) :: c.name in output
                 && exists d <- columns :: c == d.(name := d.name + suffix)
  {
    if columns != [] {
      var rest := columns[1..];
      assert forall i :: 0 <= i < |rest| ==> rest[i] == columns[i + 1];
      JoinedNames(rest, suffix, output);
      var joined := JoinedInfo(rest, suffix, output);
      forall i | 0 <= i < |joined| ensures joined[i].name != columns[0].name + suffix {
        assert joined[i] in joined;
        var d :| d in rest && joined[i] == d.(name := d.name + suffix);
        SuffixInjective(d.name, columns[0].name, suffix);
      }
    }
  }

  lemma {:induction false} KeptMembers(columns: Columns, drop: seq<string>)
    ensures forall c :: c in Kept(columns, drop) <==> c in columns && c.name !in drop
    ensures UniqueNames(columns) ==> UniqueNames(Kept(columns, drop))
  {
    if columns != [] {
      var rest := columns[1..];
      assert forall j :: 0 <= j < |rest| ==> rest[j] == columns[j + 1];
      KeptMembers(rest, drop);
      assert forall c :: c in columns <==> c == columns[0] || c in rest;
      var kept := Kept(rest, drop);
      if UniqueNames(columns) && columns[0].name !in drop {
        forall k | 0 <= k < |kept| ensures kept[k].name != columns[0].name {
          assert kept[k] in kept;
          var j :| 0 <= j < |rest| && rest[j] == kept[k];
        }
      }
    }
  }

  lemma ViewNamesDistinct(columns: Columns, special: Option<string>, tableId: nat, p: Parameters)
    requires UniqueNames(columns) && BuildView(columns, special, tableId, p).Success?
    ensures var v := BuildView(columns, special, tableId, p).value;
            UniqueNames(v.columnsInfo) && v.columns == Names(v.columnsInfo)
  {
    KeptMembers(Prepare(columns, p.cleaning, p.mode).value.0, Dropped(p.drop, special, p.mode));
  }

  lemma JoinNamesDistinct(item: EventView, event: EventView, suffix: string, output: seq<string>)
    requires UniqueNames(item.columnsInfo) && UniqueNames(event.columnsInfo)
    requires item.columns == Names(item.columnsInfo) && forall c <- output :: c !in item.columns
    ensures UniqueNames(item.columnsInfo + JoinedInfo(event.columnsInfo, suffix, output))
  {
    var own, joined := item.columnsInfo, JoinedInfo(event.columnsInfo, suffix, output);
    JoinedNames(event.columnsInfo, suffix, output);
    forall i, j | 0 <= i < |own| && 0 <= j < |joined| ensures own[i].name != joined[j].name {
      assert joined[j] in joined;
      assert item.columns[i] == own[i].name;
    }
  }

  /** Whatever the mode and parameters, an accepted item view has no two columns of one name. */
  lemma ItemViewNamesDistinct(t: ItemTable, e: EventTable, suffix: string, p: ItemParameters)
    requires UniqueNames(t.columns) && UniqueNames(e.columns)
    ensures var r := ItemGetView(t, e, suffix, p);
            r.Success? ==> UniqueNames(r.value.columnsInfo)
  {
    var r := ItemGetView(t, e, suffix, p);
    if r.Success? {
      ViewNamesDistinct(t.columns, t.recordCreationTimestampColumn, t.id, p.view);
      ViewNamesDistinct(e.columns, e.recordCreationTimestampColumn, e.id, p.Event());
      JoinNamesDistinct(r.value.item, r.value.event, suffix, r.value.joinOutput);
    }
  }

  type Row = map<string, Scalar>

  /** The recipe of a column, if it has one. */
  function RecipeFor(recipes: seq<Recipe>, column: string): Option<Recipe> {
    if recipes == [] then None
    else if recipes[0].column == column then Some(recipes[0])
    else RecipeFor(recipes[1..], column)
  }

  /** The value a view's graph node gives a cell: the recipe of its column run on the raw value. */
  function Cell(w: Warehouse, recipes: seq<Recipe>, column: string, raw: Scalar): Scalar {
    var recipe := RecipeFor(recipes, column);
    if recipe.Some? then w.Clean(recipe.value.dtype, recipe.value.operations, raw) else raw
  }

  function EvalRow(w: Warehouse, v: EventView, row: Row): Row {
    map c <- v.columns | c in row :: Cell(w, v.recipe, c, row[c])
  }

  /** The cleaned event rows whose id is the item row's. */
  function Matching(w: Warehouse, v: ItemView, key: Scalar, events: seq<Row>): seq<Row> {
    if events == [] then []
    else
      var e := EvalRow(w, v.event, events[0]);
      (if v.rightOn in e && e[v.rightOn] == key && !key.Missing? then [e] else [])
      + Matching(w, v, key, events[1..])
  }

  function IndexIn(names: seq<string>, name: string): nat
    requires name in names
    ensures IndexIn(names, name) < |names|
  {
    if names[0] == name then 0 else IndexIn(names[1..], name) + 1
  }

  /** An item row joined with one event row, or with none. */
  function JoinedRow(v: ItemView, own: Row, event: Row): Row
    requires |v.joinInput| == |v.joinOutput|
  {
    own + map c <- v.joinOutput ::
            var input := v.joinInput[IndexIn(v.joinOutput, c)];
            if input in event then event[input] else Missing
  }

  /** The rows an item view gives for one item row: the left join keeps it once for every event row
      it matches, and once without event values if there is none. */
  function EvalItemRow(w: Warehouse, v: ItemView, row: Row, events: seq<Row>): seq<Row>
    requires |v.joinInput| == |v.joinOutput|
  {
    var own := EvalRow(w, v.item, row);
    var matches := if v.leftOn in own then Matching(w, v, own[v.leftOn], events) else [];
    if matches == [] then [JoinedRow(v, own, map[])]
    else seq(|matches|, i requires 0 <= i < |matches| => JoinedRow(v, own, matches[i]))
  }

  lemma {:induction false} SameMatching(w: Warehouse, a: ItemView, b: ItemView, key: Scalar, events: seq<Row>)
    requires SameItemView(a, b)
    ensures Matching(w, a, key, events) == Matching(w, b, key, events)
  {
    if events != [] {
      assert EvalRow(w, a.event, events[0]) == EvalRow(w, b.event, events[0]);
      SameMatching(w, a, b, key, events[1..]);
    }
  }

  /** Same views give the same cleaned values on every row of every pair of tables. */
  lemma SameValues(w: Warehouse, a: ItemView, b: ItemView, row: Row, events: seq<Row>)
    requires SameItemView(a, b) && |a.joinInput| == |a.joinOutput|
    ensures EvalItemRow(w, a, row, events) == EvalItemRow(w, b, row, events)
  {
    var own := EvalRow(w, a.item, row);
    assert own == EvalRow(w, b.item, row);
    if a.leftOn in own { SameMatching(w, a, b, own[a.leftOn], events); }
    forall event: Row ensures JoinedRow(a, own, event) == JoinedRow(b, own, event) {}
  }

  /** Replay preserves meaning: names and values, for every row of every table in every warehouse. */
  lemma ItemReplayPreservesRows(w: Warehouse, t: ItemTable, e: EventTable, suffix: string, row: Row, events: seq<Row>)
    requires ValidColumns(t.columns) && ValidColumns(e.columns)
    requires ItemGetView(t, e, suffix, AUTOMATIC_ITEM).Success?
    ensures var auto := ItemGetView(t, e, suffix, AUTOMATIC_ITEM).value;
            var replay := ItemGetView(t, e, auto.metadata.eventSuffix, ReplayItem(auto.metadata));
            && replay.Success?
            && EvalItemRow(w, auto, row, events) == EvalItemRow(w, replay.value, row, events)
            && Names(auto.columnsInfo) == Names(replay.value.columnsInfo)
  {
    ItemViewReplays(t, e, suffix);
    var auto := ItemGetView(t, e, suffix, AUTOMATIC_ITEM).value;
    var replay := ItemGetView(t, e, auto.metadata.eventSuffix, ReplayItem(auto.metadata)).value;
    SameValues(w, auto, replay, row, events);
    NormalizedSame(auto.columnsInfo);
    NormalizedSame(replay.columnsInfo);
  }

  /** The operations a mode promises a column: its defaults in automatic mode, the last ones given in
      manual mode. */
  function Promised(c: ColumnInfo, p: Parameters): seq<CleaningOperation> {
    if p.mode == Auto then OperationsOf(c) else Given(p.cleaning, c.name).GetOr([])
  }

  lemma {:induction false} NoRecipe(columns: Columns, name: string)
    requires forall i :: 0 <= i < |columns| ==> columns[i].name != name
    ensures RecipeFor(Recipes(columns), name) == None
  {
    if columns != [] { NoRecipe(columns[1..], name); }
  }

  lemma {:induction false} RecipeForColumn(columns: Columns, i: nat)
    requires UniqueNames(columns) && i < |columns|
    ensures var c := columns[i];
            RecipeFor(Recipes(columns), c.name)
            == if OperationsOf(c) == [] then None else Some(Recipe(c.name, c.dtype, OperationsOf(c)))
  {
    var rest := columns[1..];
    assert forall j :: 0 <= j < |rest| ==> rest[j] == columns[j + 1];
    if i == 0 {
      NoRecipe(rest, columns[0].name);
    } else {
      RecipeForColumn(rest, i - 1);
    }
  }

  /** A column is kept exactly when it is not dropped, and then its own operations are its recipe. */
  lemma KeptIff(columns: Columns, drop: seq<string>, i: nat)
    requires UniqueNames(columns) && i < |columns|
    ensures var kept, c := Kept(columns, drop), columns[i];
            && (c.name in Names(kept) <==> c.name !in drop)
            && (c.name !in drop ==>
                  RecipeFor(Recipes(kept), c.name)
                  == if OperationsOf(c) == [] then None else Some(Recipe(c.name, c.dtype, OperationsOf(c))))
  {
    KeptMembers(columns, drop);
    var kept, c := Kept(columns, drop), columns[i];
    if c.name in Names(kept) {
      var k :| 0 <= k < |kept| && Names(kept)[k] == c.name;
      assert kept[k] in kept;
      var j :| 0 <= j < |columns| && columns[j] == kept[k];
      assert j == i;
      RecipeForColumn(kept, k);
    } else {
      assert forall k :: 0 <= k < |kept| ==> Names(kept)[k] == kept[k].name;
      assert c !in kept;
    }
  }

  /** A view is accepted exactly when no list it is to use is refused by the validator, and then every
      column it keeps is cleaned with the operations promised and nothing else; the columns missing
      are exactly those dropped. */
  lemma ViewCleans(w: Warehouse, t: EventTable, p: Parameters, row: Row, i: nat)
    requires ValidColumns(t.columns) && i < |t.columns| && t.columns[i].name in row
    ensures EventGetView(t, p).Success?
            <==> (p.mode == Auto ==> p == AUTOMATIC) && forall c <- t.columns :: ValidOperations(Promised(c, p))
    ensures EventGetView(t, p).Success? ==>
              var v, c := EventGetView(t, p).value, t.columns[i];
              && (c.name in EvalRow(w, v, row) <==> c.name !in v.metadata.drop)
              && (c.name in EvalRow(w, v, row) ==>
                    EvalRow(w, v, row)[c.name] == w.Clean(c.dtype, Promised(c, p), row[c.name]))
  {
    assert (forall c <- t.columns :: ValidOperations(Promised(c, p)))
           <==> forall k :: 0 <= k < |t.columns| ==> ValidOperations(Promised(t.columns[k], p));
    if EventGetView(t, p).Success? {
      var v, c := EventGetView(t, p).value, t.columns[i];
      var data := Prepare(t.columns, p.cleaning, p.mode).value.0;
      assert data[i].name == c.name && data[i].dtype == c.dtype && UniqueNames(data);
      assert OperationsOf(data[i]) == Promised(c, p);
      KeptIff(data, v.metadata.drop, i);
    }
  }

  /** What the graph knows of a view: its node parameters, not the column information beside it. */
  datatype ViewNode =
    | EventNode(columns: seq<string>, recipe: seq<Recipe>, metadata: Metadata)
    | ItemNode(item: ViewNode, event: ViewNode, leftOn: string, rightOn: string, joinInput: seq<string>,
               joinOutput: seq<string>, itemMetadata: ItemMetadata)

  function NodeOf(v: EventView): ViewNode {
    EventNode(v.columns, v.recipe, v.metadata)
  }

  function ItemNodeOf(v: ItemView): ViewNode {
    ItemNode(NodeOf(v.item), NodeOf(v.event), v.leftOn, v.rightOn, v.joinInput, v.joinOutput, v.metadata)
  }

  /** `add_operation_node`: an equal node is reused. */
  function Inserted(nodes: seq<ViewNode>, node: ViewNode): seq<ViewNode> {
    if node in nodes then nodes else nodes + [node]
  }

  /** The nodes after an item view was asked for: the event view's node stays when the rest is refused. */
  function NodesAfter(nodes: seq<ViewNode>, t: ItemTable, e: EventTable, suffix: string, p: ItemParameters)
    : seq<ViewNode>
  {
    if p.view.mode == Auto && p != AUTOMATIC_ITEM then nodes
    else
      var event, r := EventGetView(e, p.Event()), ItemGetView(t, e, suffix, p);
      var nodes' := if event.Success? then Inserted(nodes, NodeOf(event.value)) else nodes;
      if r.Success? then Inserted(nodes', ItemNodeOf(r.value)) else nodes'
  }

  /** Two views share a node exactly when their columns, cleaning and metadata are the same. */
  lemma NodesDiffer(a: EventView, b: EventView)
    ensures NodeOf(a) == NodeOf(b) <==> a.columns == b.columns && a.recipe == b.recipe && a.metadata == b.metadata
  {
  }

  /** The nodes the graph holds after an item view was asked for: those it held; the event view's, if the
      parameters fit the mode and the event side is accepted, even where the item view is refused; and the
      item view's. */
  lemma GraphContents(nodes: seq<ViewNode>, t: ItemTable, e: EventTable, suffix: string, p: ItemParameters, n: ViewNode)
    ensures var event, item := EventGetView(e, p.Event()), ItemGetView(t, e, suffix, p);
            n in NodesAfter(nodes, t, e, suffix, p) <==>
            || n in nodes
            || ((p.view.mode == Auto ==> p == AUTOMATIC_ITEM) && event.Success?
                && n == EventNode(event.value.columns, event.value.recipe, event.value.metadata))
            || (item.Success? && n == ItemNodeOf(item.value))
    ensures var item := ItemGetView(t, e, suffix, p);
            item.Success? ==>
              var v, node := item.value, ItemNodeOf(item.value);
              && node.item == EventNode(v.item.columns, v.item.recipe, v.item.metadata)
              && node.event == EventNode(v.event.columns, v.event.recipe, v.event.metadata)
              && node.leftOn == v.leftOn && node.rightOn == v.rightOn
              && node.joinInput == v.joinInput && node.joinOutput == v.joinOutput && node.itemMetadata == v.metadata
  {
  }

  /** A graph holds no node twice, whatever views are asked for, and asking for one again adds nothing. */
  lemma GraphHasNoDuplicates(nodes: seq<ViewNode>, t: ItemTable, e: EventTable, suffix: string, p: ItemParameters)
    requires NoDuplicates(nodes)
    ensures var after := NodesAfter(nodes, t, e, suffix, p);
            && NoDuplicates(after) && nodes <= after
            && NodesAfter(after, t, e, suffix, p) == after
  {
  }

  /** The loop of `clone`, which rewrites one column after the other. */
  method CloneColumns(columns: Columns, cleaning: seq<ColumnCleaning>) returns (result: Result<Columns>)
    ensures result == Clone(columns, cleaning)
  {
    var r := columns;
    for i := 0 to |columns|
      invariant |r| == |columns|
      invariant forall j :: 0 <= j < i ==> r[j] == columns[j].(criticalDataInfo := Given(cleaning, columns[j].name))
      invariant forall j :: 0 <= j < i ==> ValidOperations(Given(cleaning, columns[j].name).GetOr([]))
      invariant forall j :: i <= j < |columns| ==> r[j] == columns[j]
    {
      var operations := Given(cleaning, r[i].name);
      if operations.Some? {
        if !ValidOperations(operations.value) {
          return Failure(ValueError);
        }
        r := r[i := r[i].(criticalDataInfo := operations)];
      } else {
        r := r[i := r[i].(criticalDataInfo := None)];
      }
    }
    assert r == Cloned(columns, cleaning);
    result := Success(r);
  }

  lemma {:induction false} KeptAppends(a: Columns, b: Columns, drop: seq<string>)
    ensures Kept(a + b, drop) == Kept(a, drop) + Kept(b, drop)
  {
    if a == [] {
      assert a + b == b;
    } else {
      assert (a + b)[1..] == a[1..] + b;
      KeptAppends(a[1..], b, drop);
    }
  }

  method PrepareViewColumnsInfo(columns: Columns, drop: seq<string>) returns (r: Columns)
    ensures r == Kept(columns, drop)
  {
    r := [];
    for i := 0 to |columns|
      invariant r == Kept(columns[..i], drop)
    {
      assert columns[..i + 1] == columns[..i] + [columns[i]];
      KeptAppends(columns[..i], [columns[i]], drop);
      assert [columns[i]][1..] == [];
      if columns[i].name !in drop {
        r := r + [columns[i]];
      }
    }
    assert columns[..|columns|] == columns;
  }

  /** The part of `get_view` both kinds of tables share, on local lists. */
  method ConstructView(columns: Columns, special: Option<string>, tableId: nat, p: Parameters)
    returns (r: Result<EventView>)
    ensures r == BuildView(columns, special, tableId, p)
  {
    var dropColumnNames := p.drop;
    if p.mode == Auto && special.Some? && special.value != "" {
      dropColumnNames := dropColumnNames + [special.value];
    }
    var data, columnCleaning := columns, p.cleaning;
    if p.mode == Manual {
      var cloned := CloneColumns(columns, p.cleaning);
      if cloned.Failure? {
        return Failure(cloned.error);
      }
      data := cloned.value;
    } else {
      columnCleaning := DefaultCleaning(columns);
    }
    var kept := PrepareViewColumnsInfo(data, dropColumnNames);
    r := Success(EventView(Names(kept), Recipes(kept), kept,
                           Metadata(p.mode, dropColumnNames, columnCleaning, tableId)));
  }

  /** The global query graph: view nodes are only ever inserted. */
  class GlobalQueryGraph {
    var nodes: seq<ViewNode>

    constructor ()
      ensures nodes == []
    {
      nodes := [];
    }

    method Insert(node: ViewNode)
      modifies this
      ensures nodes == Inserted(old(nodes), node)
    {
      if node !in nodes {
        nodes := nodes + [node];
      }
    }

    /** `EventTable.get_view` on local lists, with the node inserted at the end. */
    method GetEventView(t: EventTable, p: Parameters) returns (r: Result<EventView>)
      modifies this
      ensures r == EventGetView(t, p)
      ensures nodes == if r.Success? then Inserted(old(nodes), NodeOf(r.value)) else old(nodes)
    {
      if p.mode == Auto && (p.drop != [] || p.cleaning != []) {
        return Failure(ValueError);
      }
      r := ConstructView(t.columns, t.recordCreationTimestampColumn, t.id, p);
      if r.Success? {
        Insert(NodeOf(r.value));
      }
    }

    /** `ItemTable.get_view` */
    method GetItemView(t: ItemTable, e: EventTable, suffix: string, p: ItemParameters) returns (r: Result<ItemView>)
      modifies this
      ensures r == ItemGetView(t, e, suffix, p)
      ensures nodes == NodesAfter(old(nodes), t, e, suffix, p)
    {
      var mode := p.view.mode;
      if mode == Auto && (p.view.drop != [] || p.view.cleaning != [] || p.eventDrop != []
                          || p.eventCleaning != [] || p.eventJoin != []) {
        return Failure(ValueError);
      }
      var built := GetEventView(e, p.Event());
      if built.Failure? {
        return Failure(built.error);
      }
      var event := built.value;
      var join := if p.eventJoin == [] then [e.timestampColumn] else p.eventJoin;
      var recordedDrop, recordedCleaning := p.eventDrop, p.eventCleaning;
      if mode == Auto {
        join := [e.timestampColumn] + EntityColumns(event.columnsInfo);
        if e.timezoneOffsetColumn.Some? {
          join := join + [e.timezoneOffsetColumn.value];
        }
        recordedDrop, recordedCleaning := event.metadata.drop, event.metadata.cleaning;
      }
      assert join == JoinColumns(e, event, mode, p.eventJoin);
      var item := ConstructView(t.columns, t.recordCreationTimestampColumn, t.id, p.view);
      if item.Failure? {
        return Failure(item.error);
      }
      r := Join(item.value, event, t.eventIdColumn, e.eventIdColumn, suffix, join,
                ItemMetadata(item.value.metadata, suffix, recordedDrop, recordedCleaning, join, e.id));
      if r.Success? {
        Insert(ItemNodeOf(r.value));
      }
    }
  }
}
