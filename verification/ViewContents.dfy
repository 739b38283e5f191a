/** What a view contains, in the terms of its tables: the columns kept, the event columns an item view
    joins and under which names, and the rows of the join (featurebyte/api/item_table.py,
    featurebyte/api/event_table.py, featurebyte/query_graph/model/table.py). */
module ViewContents {
  import opened Wrappers
  import opened Cleaning
  import opened Sequences
  import opened Tables
  import opened Views

  /** The record creation timestamp column, which automatic mode leaves out. */
  predicate IsRecordCreation(special: Option<string>, name: string) {
    special == Some(name) && name != ""
  }

  lemma {:induction false} KeptInOrder(columns: Columns, drop: seq<string>, a: ColumnInfo, b: ColumnInfo)
    requires Precedes(columns, a, b) && a.name !in drop && b.name !in drop
    ensures Precedes(Kept(columns, drop), a, b)
  {
    var rest := columns[1..];
    PrecedesInTail(columns, a, b);
    KeptMembers(rest, drop);
    if Precedes(rest, a, b) { KeptInOrder(rest, drop, a, b); }
    if columns[0].name !in drop { PrecedesInFront(columns[0], Kept(rest, drop), a, b); }
  }

  /** What an automatic event view drops and keeps: everything but the record creation timestamp column,
      with its information, in the order of the table. */
  lemma AutomaticColumns(columns: Columns, special: Option<string>, tableId: nat)
    requires UniqueNames(columns)
    ensures var v := BuildView(columns, special, tableId, AUTOMATIC).value;
            && v.metadata.mode == Auto && v.metadata.tableId == tableId
            && v.metadata.drop == (if special.Some? && special.value != "" then [special.value] else [])
            && v.columns == Names(v.columnsInfo)
            && (forall c :: c in v.columnsInfo <==> c in columns && !IsRecordCreation(special, c.name))
            && (forall i, j :: 0 <= i < j < |columns|
                  && !IsRecordCreation(special, columns[i].name) && !IsRecordCreation(special, columns[j].name)
                  ==> Precedes(v.columnsInfo, columns[i], columns[j]))
  {
    var v := BuildView(columns, special, tableId, AUTOMATIC).value;
    KeptMembers(columns, v.metadata.drop);
    forall i, j | 0 <= i < j < |columns|
      && !IsRecordCreation(special, columns[i].name) && !IsRecordCreation(special, columns[j].name)
      ensures Precedes(v.columnsInfo, columns[i], columns[j])
    {
      assert Precedes(columns, columns[i], columns[j]);
      KeptInOrder(columns, v.metadata.drop, columns[i], columns[j]);
    }
  }

  /** Of several lists given for one column the last one counts. */
  lemma {:induction false} LastGiven(cleaning: seq<ColumnCleaning>, column: string)
    ensures Given(cleaning, column).None? <==> forall i :: 0 <= i < |cleaning| ==> cleaning[i].column != column
    ensures forall i :: 0 <= i < |cleaning| && cleaning[i].column == column
              && (forall j :: i < j < |cleaning| ==> cleaning[j].column != column)
              ==> Given(cleaning, column) == Some(cleaning[i].operations)
  {
    if cleaning != [] {
      var rest := cleaning[1..];
      LastGiven(rest, column);
      assert forall j :: 0 <= j < |rest| ==> rest[j] == cleaning[j + 1];
    }
  }

  /** What a manual view drops and keeps: the columns given, and the operations given and no others; what
      it keeps stays in order. */
  lemma ManualColumns(columns: Columns, special: Option<string>, tableId: nat, p: Parameters)
    requires UniqueNames(columns) && p.mode == Manual && BuildView(columns, special, tableId, p).Success?
    ensures var v := BuildView(columns, special, tableId, p).value;
            && v.metadata == Metadata(Manual, p.drop, p.cleaning, tableId)
            && v.columns == Names(v.columnsInfo)
            && (forall i :: 0 <= i < |columns| ==>
                  (columns[i].name in v.columns <==> columns[i].name !in p.drop))
            && (forall c <- v.columnsInfo :: exists d <- columns ::
                  c == d.(criticalDataInfo := c.criticalDataInfo) && c.criticalDataInfo == Given(p.cleaning, d.name))
            && (forall i, j :: 0 <= i < j < |columns| && columns[i].name !in p.drop && columns[j].name !in p.drop
                  ==> Precedes(v.columns, columns[i].name, columns[j].name))
  {
    var v := BuildView(columns, special, tableId, p).value;
    var data := Cloned(columns, p.cleaning);
    KeptMembers(data, p.drop);
    forall i | 0 <= i < |columns| ensures columns[i].name in v.columns <==> columns[i].name !in p.drop {
      assert data[i].name == columns[i].name;
      KeptIff(data, p.drop, i);
    }
    forall i, j | 0 <= i < j < |columns| && columns[i].name !in p.drop && columns[j].name !in p.drop
      ensures Precedes(v.columns, columns[i].name, columns[j].name)
    {
      assert Precedes(data, data[i], data[j]);
      KeptInOrder(data, p.drop, data[i], data[j]);
      var k, l :| 0 <= k < l < |v.columnsInfo| && v.columnsInfo[k] == data[i] && v.columnsInfo[l] == data[j];
      assert v.columns[k] == columns[i].name && v.columns[l] == columns[j].name;
    }
    forall c | c in v.columnsInfo
      ensures exists d <- columns ::
                c == d.(criticalDataInfo := c.criticalDataInfo) && c.criticalDataInfo == Given(p.cleaning, d.name)
    {
      var k :| 0 <= k < |data| && data[k] == c;
      assert columns[k] in columns;
    }
  }

  /** The event columns an automatic item view joins: those of the event view, but for the event id, that
      are the timestamp, the timezone offset or an entity. */
  predicate JoinedAutomatically(e: EventTable, d: ColumnInfo) {
    && d.name != e.eventIdColumn && !IsRecordCreation(e.recordCreationTimestampColumn, d.name)
    && (d.name == e.timestampColumn || e.timezoneOffsetColumn == Some(d.name) || d.entityId.Some?)
  }

  lemma {:induction false} ExcludingMembers(names: seq<string>, excluded: string)
    ensures forall x :: x in Excluding(names, excluded) <==> x in names && x != excluded
  {
    if names != [] {
      ExcludingMembers(names[1..], excluded);
      assert forall x :: x in names <==> x == names[0] || x in names[1..];
    }
  }

  lemma {:induction false} ExcludingInOrder(names: seq<string>, excluded: string, a: string, b: string)
    requires Precedes(names, a, b) && a != excluded && b != excluded
    ensures Precedes(Excluding(names, excluded), a, b)
  {
    var rest := names[1..];
    PrecedesInTail(names, a, b);
    ExcludingMembers(rest, excluded);
    if Precedes(rest, a, b) { ExcludingInOrder(rest, excluded, a, b); }
    if names[0] != excluded { PrecedesInFront(names[0], Excluding(rest, excluded), a, b); }
  }

  lemma {:induction false} EntityMembers(columns: Columns)
    ensures forall x :: x in EntityColumns(columns) <==> exists c <- columns :: c.name == x && c.entityId.Some?
  {
    if columns != [] {
      EntityMembers(columns[1..]);
      assert forall c :: c in columns <==> c == columns[0] || c in columns[1..];
    }
  }

  lemma {:induction false} JoinedInfoMembers(columns: Columns, suffix: string, output: seq<string>)
    ensures forall c :: c in JoinedInfo(columns, suffix, output)
              <==> exists d <- columns :: c == d.(name := d.name + suffix) && c.name in output
  {
    if columns != [] {
      JoinedInfoMembers(columns[1..], suffix, output);
      assert forall d :: d in columns <==> d == columns[0] || d in columns[1..];
    }
  }

  lemma SuffixedMembers(names: seq<string>, suffix: string, name: string)
    ensures name + suffix in Suffixed(names, suffix) <==> name in names
  {
    if name in names {
      var i :| 0 <= i < |names| && names[i] == name;
      assert Suffixed(names, suffix)[i] == name + suffix;
    }
    if name + suffix in Suffixed(names, suffix) {
      var i :| 0 <= i < |names| && names[i] + suffix == name + suffix;
      SuffixInjective(names[i], name, suffix);
    }
  }

  lemma UniqueByName(columns: Columns, c: ColumnInfo, d: ColumnInfo)
    requires UniqueNames(columns) && c in columns && d in columns && c.name == d.name
    ensures c == d
  {
    var i :| 0 <= i < |columns| && columns[i] == c;
    var j :| 0 <= j < |columns| && columns[j] == d;
  }

  /** The columns the source asks for in automatic mode, before the event id is left out. */
  lemma AutomaticRequest(e: EventTable, d: ColumnInfo)
    requires UniqueNames(e.columns) && d in e.columns && !IsRecordCreation(e.recordCreationTimestampColumn, d.name)
    ensures var event := EventGetView(e, AUTOMATIC).value;
            d.name in JoinColumns(e, event, Auto, [])
            <==> d.name == e.timestampColumn || e.timezoneOffsetColumn == Some(d.name) || d.entityId.Some?
  {
    var event := EventGetView(e, AUTOMATIC).value;
    AutomaticColumns(e.columns, e.recordCreationTimestampColumn, e.id);
    EntityMembers(event.columnsInfo);
    if d.name in EntityColumns(event.columnsInfo) {
      var c :| c in event.columnsInfo && c.name == d.name && c.entityId.Some?;
      UniqueByName(e.columns, c, d);
    }
  }

  lemma JoinedNameIff(e: EventTable, event: EventView, join: seq<string>, x: string)
    requires UniqueNames(e.columns) && event == EventGetView(e, AUTOMATIC).value
    requires join == JoinColumns(e, event, Auto, []) && forall c <- join :: c in event.columns
    ensures x in join && x != e.eventIdColumn <==> exists d <- e.columns :: d.name == x && JoinedAutomatically(e, d)
  {
    AutomaticColumns(e.columns, e.recordCreationTimestampColumn, e.id);
    if x in join && x != e.eventIdColumn {
      var i :| 0 <= i < |event.columns| && event.columns[i] == x;
      var d := event.columnsInfo[i];
      assert d in event.columnsInfo && d.name == x;
      AutomaticRequest(e, d);
    }
    if d :| d in e.columns && d.name == x && JoinedAutomatically(e, d) {
      AutomaticRequest(e, d);
    }
  }

  /** An accepted automatic item view: what it joins on, and that the event columns it joins are exactly
      the ones above, each once and under its name with the suffix. */
  lemma AutomaticJoin(t: ItemTable, e: EventTable, suffix: string)
    requires UniqueNames(t.columns) && UniqueNames(e.columns)
    requires ItemGetView(t, e, suffix, AUTOMATIC_ITEM).Success?
    ensures var v := ItemGetView(t, e, suffix, AUTOMATIC_ITEM).value;
            && v.leftOn == t.eventIdColumn && v.rightOn == e.eventIdColumn
            && NoDuplicates(v.joinInput) && |v.joinOutput| == |v.joinInput|
            && (forall k :: 0 <= k < |v.joinInput| ==> v.joinOutput[k] == v.joinInput[k] + suffix)
            && (forall x :: x in v.joinInput <==> exists d <- e.columns :: d.name == x && JoinedAutomatically(e, d))
            && v.metadata == ItemMetadata(v.item.metadata, suffix, v.event.metadata.drop, v.event.metadata.cleaning,
                                          v.metadata.eventJoin, e.id)
            && v.item == BuildView(t.columns, t.recordCreationTimestampColumn, t.id, AUTOMATIC).value
            && v.event == EventGetView(e, AUTOMATIC).value
  {
    var v := ItemGetView(t, e, suffix, AUTOMATIC_ITEM).value;
    var join := JoinColumns(e, v.event, Auto, []);
    ExcludingMembers(join, e.eventIdColumn);
    forall x ensures x in v.joinInput <==> exists d <- e.columns :: d.name == x && JoinedAutomatically(e, d) {
      JoinedNameIff(e, v.event, join, x);
    }
  }

  lemma JoinedByName(t: ItemTable, e: EventTable, suffix: string, d: ColumnInfo)
    requires UniqueNames(t.columns) && UniqueNames(e.columns) && d in e.columns
    requires ItemGetView(t, e, suffix, AUTOMATIC_ITEM).Success?
    ensures var v := ItemGetView(t, e, suffix, AUTOMATIC_ITEM).value;
            d.name + suffix in v.joinOutput <==> JoinedAutomatically(e, d)
  {
    var v := ItemGetView(t, e, suffix, AUTOMATIC_ITEM).value;
    AutomaticJoin(t, e, suffix);
    SuffixedMembers(v.joinInput, suffix, d.name);
    if d.name in v.joinInput {
      var c :| c in e.columns && c.name == d.name && JoinedAutomatically(e, c);
      UniqueByName(e.columns, c, d);
    }
  }

  lemma InEventView(e: EventTable, d: ColumnInfo)
    requires UniqueNames(e.columns)
    ensures d in EventGetView(e, AUTOMATIC).value.columnsInfo
            <==> d in e.columns && !IsRecordCreation(e.recordCreationTimestampColumn, d.name)
  {
    AutomaticColumns(e.columns, e.recordCreationTimestampColumn, e.id);
  }

  lemma JoinedContents(t: ItemTable, e: EventTable, suffix: string, c: ColumnInfo)
    requires UniqueNames(t.columns) && UniqueNames(e.columns)
    requires ItemGetView(t, e, suffix, AUTOMATIC_ITEM).Success?
    ensures var v := ItemGetView(t, e, suffix, AUTOMATIC_ITEM).value;
            c in JoinedInfo(v.event.columnsInfo, suffix, v.joinOutput)
            <==> exists d <- e.columns :: JoinedAutomatically(e, d) && c == d.(name := d.name + suffix)
  {
    var v := ItemGetView(t, e, suffix, AUTOMATIC_ITEM).value;
    var joined := JoinedInfo(v.event.columnsInfo, suffix, v.joinOutput);
    if c in joined {
      assert exists d <- v.event.columnsInfo :: c == d.(name := d.name + suffix) && c.name in v.joinOutput by {
        JoinedInfoMembers(v.event.columnsInfo, suffix, v.joinOutput);
      }
      var d :| d in v.event.columnsInfo && c == d.(name := d.name + suffix) && c.name in v.joinOutput;
      InEventView(e, d);
      JoinedByName(t, e, suffix, d);
    }
    if d :| d in e.columns && JoinedAutomatically(e, d) && c == d.(name := d.name + suffix) {
      InEventView(e, d);
      JoinedByName(t, e, suffix, d);
      assert c in joined by { JoinedInfoMembers(v.event.columnsInfo, suffix, v.joinOutput); }
    }
  }

  /** Its columns are those of the item table but the record creation timestamp, and after them the joined
      ones with the event table's information. */
  lemma AutomaticContents(t: ItemTable, e: EventTable, suffix: string, c: ColumnInfo)
    requires UniqueNames(t.columns) && UniqueNames(e.columns)
    requires ItemGetView(t, e, suffix, AUTOMATIC_ITEM).Success?
    ensures var v := ItemGetView(t, e, suffix, AUTOMATIC_ITEM).value;
            && v.item.columnsInfo <= v.columnsInfo
            && (c in v.item.columnsInfo
                <==> c in t.columns && !IsRecordCreation(t.recordCreationTimestampColumn, c.name))
            && (c in v.columnsInfo[|v.item.columnsInfo|..]
                <==> exists d <- e.columns :: JoinedAutomatically(e, d) && c == d.(name := d.name + suffix))
  {
    var v := ItemGetView(t, e, suffix, AUTOMATIC_ITEM).value;
    AutomaticColumns(t.columns, t.recordCreationTimestampColumn, t.id);
    JoinedContents(t, e, suffix, c);
    assert v.columnsInfo[|v.item.columnsInfo|..] == JoinedInfo(v.event.columnsInfo, suffix, v.joinOutput);
  }

  lemma {:induction false} EntitiesInOrder(columns: Columns, a: ColumnInfo, b: ColumnInfo)
    requires Precedes(columns, a, b) && a.entityId.Some? && b.entityId.Some?
    ensures Precedes(EntityColumns(columns), a.name, b.name)
  {
    var rest := columns[1..];
    PrecedesInTail(columns, a, b);
    EntityMembers(rest);
    if Precedes(rest, a, b) { EntitiesInOrder(rest, a, b); }
    if columns[0].entityId.Some? { PrecedesInFront(columns[0].name, EntityColumns(rest), a.name, b.name); }
  }

  /** The timestamp first, the timezone offset last, and the others as in the event table. */
  predicate JoinedBefore(e: EventTable, c: ColumnInfo, d: ColumnInfo) {
    && d.name != e.timestampColumn && e.timezoneOffsetColumn != Some(c.name)
    && (c.name == e.timestampColumn || e.timezoneOffsetColumn == Some(d.name) || Precedes(e.columns, c, d))
  }

  lemma BetweenEnds(first: string, names: seq<string>, last: seq<string>, x: string, y: string)
    ensures Precedes(names, x, y) ==> Precedes([first] + names + last, x, y)
    ensures y in names + last ==> Precedes([first] + names + last, first, y)
    ensures x in [first] + names && last == [y] ==> Precedes([first] + names + last, x, y)
  {
    var all := [first] + names + last;
    if Precedes(names, x, y) {
      var k, l :| 0 <= k < l < |names| && names[k] == x && names[l] == y;
      assert all[k + 1] == x && all[l + 1] == y;
    }
    if y in names + last {
      var l :| 0 <= l < |names + last| && (names + last)[l] == y;
      assert all[0] == first && all[l + 1] == y;
    }
    if x in [first] + names && last == [y] {
      var k :| 0 <= k < |[first] + names| && ([first] + names)[k] == x;
      assert all[k] == x && all[|all| - 1] == y;
    }
  }

  lemma RequestedBefore(e: EventTable, c: ColumnInfo, d: ColumnInfo)
    requires UniqueNames(e.columns) && c in e.columns && d in e.columns && JoinedBefore(e, c, d)
    requires JoinedAutomatically(e, c) && JoinedAutomatically(e, d) && c.name != d.name
    ensures Precedes(JoinColumns(e, EventGetView(e, AUTOMATIC).value, Auto, []), c.name, d.name)
  {
    var event := EventGetView(e, AUTOMATIC).value;
    var found := EntityColumns(event.columnsInfo);
    var last := if e.timezoneOffsetColumn.Some? then [e.timezoneOffsetColumn.value] else [];
    AutomaticRequest(e, c);
    AutomaticRequest(e, d);
    if c.name != e.timestampColumn && e.timezoneOffsetColumn != Some(d.name) {
      AutomaticColumns(e.columns, e.recordCreationTimestampColumn, e.id);
      var i, j :| 0 <= i < j < |e.columns| && e.columns[i] == c && e.columns[j] == d;
      EntitiesInOrder(event.columnsInfo, c, d);
    }
    BetweenEnds(e.timestampColumn, found, last, c.name, d.name);
  }

  lemma JoinsBefore(t: ItemTable, e: EventTable, suffix: string, c: ColumnInfo, d: ColumnInfo)
    requires UniqueNames(e.columns) && c in e.columns && d in e.columns && JoinedBefore(e, c, d)
    requires JoinedAutomatically(e, c) && JoinedAutomatically(e, d) && c.name != d.name
    requires ItemGetView(t, e, suffix, AUTOMATIC_ITEM).Success?
    ensures Precedes(ItemGetView(t, e, suffix, AUTOMATIC_ITEM).value.joinInput, c.name, d.name)
  {
    RequestedBefore(e, c, d);
    var join := JoinColumns(e, EventGetView(e, AUTOMATIC).value, Auto, []);
    ExcludingInOrder(join, e.eventIdColumn, c.name, d.name);
  }

  /** The order in which an automatic item view joins the event columns. */
  lemma AutomaticOrder(t: ItemTable, e: EventTable, suffix: string, c: ColumnInfo, d: ColumnInfo)
    requires UniqueNames(t.columns) && UniqueNames(e.columns) && c in e.columns && d in e.columns
    requires JoinedAutomatically(e, c) && JoinedAutomatically(e, d) && c.name != d.name
    requires ItemGetView(t, e, suffix, AUTOMATIC_ITEM).Success? && e.timezoneOffsetColumn != Some(e.timestampColumn)
    ensures Precedes(ItemGetView(t, e, suffix, AUTOMATIC_ITEM).value.joinInput, c.name, d.name)
            <==> JoinedBefore(e, c, d)
  {
    var v := ItemGetView(t, e, suffix, AUTOMATIC_ITEM).value;
    if JoinedBefore(e, c, d) {
      JoinsBefore(t, e, suffix, c, d);
    } else {
      var i :| 0 <= i < |e.columns| && e.columns[i] == c;
      var j :| 0 <= j < |e.columns| && e.columns[j] == d;
      assert JoinedBefore(e, d, c) by {
        if i < j { assert Precedes(e.columns, c, d); } else { assert Precedes(e.columns, d, c); }
      }
      JoinsBefore(t, e, suffix, d, c);
      AutomaticJoin(t, e, suffix);
    }
  }

  /** The column is there in automatic mode. */
  predicate KeptAutomatically(columns: Columns, special: Option<string>, name: string) {
    !IsRecordCreation(special, name) && exists c <- columns :: c.name == name
  }

  /** The column of that name carries an entity. */
  predicate HasEntity(columns: Columns, name: string) {
    exists c <- columns :: c.name == name && c.entityId.Some?
  }

  /** The event columns a manual item view is asked for. */
  function Asked(e: EventTable, p: ItemParameters): seq<string> {
    if p.eventJoin == [] then [e.timestampColumn] else p.eventJoin
  }

  /** An accepted manual item view joins the columns it is given, or the timestamp alone, without the event
      id and in order; all of them are columns of the event view. */
  lemma ManualJoin(t: ItemTable, e: EventTable, suffix: string, p: ItemParameters)
    requires p.view.mode == Manual && ItemGetView(t, e, suffix, p).Success?
    ensures var v := ItemGetView(t, e, suffix, p).value;
            && v.leftOn == t.eventIdColumn && v.rightOn == e.eventIdColumn
            && NoDuplicates(v.joinInput) && |v.joinOutput| == |v.joinInput|
            && (forall k :: 0 <= k < |v.joinInput| ==> v.joinOutput[k] == v.joinInput[k] + suffix)
            && (forall x :: x in v.joinInput <==> x in Asked(e, p) && x != e.eventIdColumn)
            && (forall x <- Asked(e, p) :: x in v.event.columns)
            && (forall i, j :: 0 <= i < j < |Asked(e, p)|
                  && Asked(e, p)[i] != e.eventIdColumn && Asked(e, p)[j] != e.eventIdColumn
                  ==> Precedes(v.joinInput, Asked(e, p)[i], Asked(e, p)[j]))
            && v.metadata == ItemMetadata(v.item.metadata, suffix, p.eventDrop, p.eventCleaning, Asked(e, p), e.id)
            && Success(v.item) == BuildView(t.columns, t.recordCreationTimestampColumn, t.id, p.view)
            && Success(v.event) == EventGetView(e, p.Event())
            && v.item.columnsInfo <= v.columnsInfo
            && (forall c :: c in v.columnsInfo <==>
                  (|| c in v.item.columnsInfo
                   || exists d <- v.event.columnsInfo :: d.name in v.joinInput && c == d.(name := d.name + suffix)))
  {
    var asked, v := Asked(e, p), ItemGetView(t, e, suffix, p).value;
    JoinedInfoMembers(v.event.columnsInfo, suffix, v.joinOutput);
    forall d | d in v.event.columnsInfo ensures d.name + suffix in v.joinOutput <==> d.name in v.joinInput {
      SuffixedMembers(v.joinInput, suffix, d.name);
    }
    ExcludingMembers(asked, e.eventIdColumn);
    forall i, j | 0 <= i < j < |asked| && asked[i] != e.eventIdColumn && asked[j] != e.eventIdColumn
      ensures Precedes(Excluding(asked, e.eventIdColumn), asked[i], asked[j])
    {
      assert Precedes(asked, asked[i], asked[j]);
      ExcludingInOrder(asked, e.eventIdColumn, asked[i], asked[j]);
    }
  }

  lemma FrontRepeats(name: string, names: seq<string>)
    ensures NoDuplicates([name] + names) <==> NoDuplicates(names) && name !in names
  {
    var all := [name] + names;
    assert forall i :: 0 <= i < |names| ==> all[i + 1] == names[i];
    if name in names {
      var i :| 0 <= i < |names| && names[i] == name;
      assert all[0] == all[i + 1];
    }
    if i, j :| 0 <= i < j < |names| && names[i] == names[j] {
      assert all[i + 1] == all[j + 1];
    }
  }

  lemma {:induction false} ExcludingRepeats(names: seq<string>, excluded: string)
    ensures NoDuplicates(Excluding(names, excluded)) <==>
            forall i, j :: 0 <= i < j < |names| && names[i] == names[j] ==> names[i] == excluded
  {
    if names != [] {
      var rest := names[1..];
      ExcludingRepeats(rest, excluded);
      ExcludingMembers(rest, excluded);
      FrontRepeats(names[0], Excluding(rest, excluded));
      assert forall i :: 0 <= i < |rest| ==> rest[i] == names[i + 1];
      if names[0] in rest {
        var j :| 0 <= j < |rest| && rest[j] == names[0];
        assert names[0] == names[j + 1];
      }
      if i, j :| 0 <= i < j < |rest| && rest[i] == rest[j] && rest[i] != excluded {
        assert names[i + 1] == names[j + 1];
      }
    }
  }

  /** Some joined column, under its new name, is a column of the item view. */
  ghost predicate Clashes(e: EventTable, item: EventView, suffix: string, p: ItemParameters) {
    exists x <- Asked(e, p) :: x != e.eventIdColumn && x + suffix in item.columns
  }

  lemma ClashesIff(e: EventTable, item: EventView, suffix: string, p: ItemParameters)
    ensures Clashes(e, item, suffix, p)
            <==> exists c <- Suffixed(Excluding(Asked(e, p), e.eventIdColumn), suffix) :: c in item.columns
  {
    var input := Excluding(Asked(e, p), e.eventIdColumn);
    ExcludingMembers(Asked(e, p), e.eventIdColumn);
    if x :| x in Asked(e, p) && x != e.eventIdColumn && x + suffix in item.columns {
      SuffixedMembers(input, suffix, x);
    }
    if c :| c in Suffixed(input, suffix) && c in item.columns {
      var i :| 0 <= i < |input| && Suffixed(input, suffix)[i] == c;
      assert input[i] in input && input[i] + suffix in item.columns;
    }
  }

  /** The two sides of a manual item view are accepted by the validator, and the columns asked for exist. */
  ghost predicate Askable(t: ItemTable, e: EventTable, p: ItemParameters) {
    && EventGetView(e, p.Event()).Success?
    && BuildView(t.columns, t.recordCreationTimestampColumn, t.id, p.view).Success?
    && forall x <- Asked(e, p) :: x in EventGetView(e, p.Event()).value.columns
  }

  /** A manual item view is accepted exactly when both sides are, and the columns asked for exist, clash
      with no item column and repeat nothing but the event id. A clash has an error of its own. */
  lemma ManualAcceptedIff(t: ItemTable, e: EventTable, suffix: string, p: ItemParameters)
    requires p.view.mode == Manual
    ensures var item := BuildView(t.columns, t.recordCreationTimestampColumn, t.id, p.view);
            && (ItemGetView(t, e, suffix, p).Success? <==>
                && Askable(t, e, p) && !Clashes(e, item.value, suffix, p)
                && forall i, j :: 0 <= i < j < |Asked(e, p)| && Asked(e, p)[i] == Asked(e, p)[j]
                     ==> Asked(e, p)[i] == e.eventIdColumn)
            && (ItemGetView(t, e, suffix, p) == Failure(RepeatedColumnNamesError)
                <==> Askable(t, e, p) && Clashes(e, item.value, suffix, p))
    ensures ItemGetView(t, e, suffix, p).Failure? ==>
              ItemGetView(t, e, suffix, p).error in {ValueError, RepeatedColumnNamesError}
  {
    ExcludingRepeats(Asked(e, p), e.eventIdColumn);
    var item := BuildView(t.columns, t.recordCreationTimestampColumn, t.id, p.view);
    if item.Success? { ClashesIff(e, item.value, suffix, p); }
  }

  /** The conditions under which the event view keeps what automatic mode asks it for and nothing is asked
      for twice: the timestamp and the timezone offset column exist and are not dropped, and neither of
      them is the other or carries an entity, unless it is the event id. */
  ghost predicate RequestIsSound(e: EventTable) {
    && KeptAutomatically(e.columns, e.recordCreationTimestampColumn, e.timestampColumn)
    && (e.timezoneOffsetColumn.Some? ==>
          KeptAutomatically(e.columns, e.recordCreationTimestampColumn, e.timezoneOffsetColumn.value))
    && (e.timestampColumn != e.eventIdColumn ==>
          !HasEntity(e.columns, e.timestampColumn) && e.timezoneOffsetColumn != Some(e.timestampColumn))
    && (e.timezoneOffsetColumn.Some? && e.timezoneOffsetColumn.value != e.eventIdColumn ==>
          !HasEntity(e.columns, e.timezoneOffsetColumn.value))
  }

  lemma {:induction false} EntitiesAreDistinct(columns: Columns)
    requires UniqueNames(columns)
    ensures NoDuplicates(EntityColumns(columns))
  {
    if columns != [] {
      var rest := columns[1..];
      assert forall i :: 0 <= i < |rest| ==> rest[i] == columns[i + 1];
      EntitiesAreDistinct(rest);
      EntityMembers(rest);
      FrontRepeats(columns[0].name, EntityColumns(rest));
      assert forall c <- rest :: c.name != columns[0].name;
    }
  }

  lemma NamesOf(columns: Columns, x: string)
    ensures x in Names(columns) <==> exists c <- columns :: c.name == x
  {
    if c :| c in columns && c.name == x {
      var i :| 0 <= i < |columns| && columns[i] == c;
      assert Names(columns)[i] == x;
    }
  }

  lemma KeptIsColumn(columns: Columns, special: Option<string>, tableId: nat, x: string)
    requires UniqueNames(columns)
    ensures x in BuildView(columns, special, tableId, AUTOMATIC).value.columns
            <==> KeptAutomatically(columns, special, x)
  {
    AutomaticColumns(columns, special, tableId);
    NamesOf(BuildView(columns, special, tableId, AUTOMATIC).value.columnsInfo, x);
  }

  lemma RequestMembers(e: EventTable)
    requires UniqueNames(e.columns)
    ensures var event := EventGetView(e, AUTOMATIC).value;
            (forall x <- JoinColumns(e, event, Auto, []) :: x in event.columns) <==>
            && KeptAutomatically(e.columns, e.recordCreationTimestampColumn, e.timestampColumn)
            && (e.timezoneOffsetColumn.Some? ==>
                  KeptAutomatically(e.columns, e.recordCreationTimestampColumn, e.timezoneOffsetColumn.value))
  {
    var event := EventGetView(e, AUTOMATIC).value;
    var special := e.recordCreationTimestampColumn;
    forall x | x in EntityColumns(event.columnsInfo) ensures x in event.columns {
      EntityMembers(event.columnsInfo);
      NamesOf(event.columnsInfo, x);
    }
    KeptIsColumn(e.columns, special, e.id, e.timestampColumn);
    if e.timezoneOffsetColumn.Some? { KeptIsColumn(e.columns, special, e.id, e.timezoneOffsetColumn.value); }
  }

  lemma RepeatsAtEnds(first: string, names: seq<string>, last: seq<string>, excluded: string)
    requires NoDuplicates(names) && |last| <= 1
    ensures NoDuplicates(Excluding([first] + names + last, excluded)) <==>
            && (first in names + last ==> first == excluded)
            && (forall x <- last :: x in names ==> x == excluded)
  {
    var all, rest := [first] + names + last, names + last;
    ExcludingRepeats(all, excluded);
    assert forall i :: 0 <= i < |rest| ==> all[i + 1] == rest[i];
    if (first in rest ==> first == excluded) && forall x <- last :: x in names ==> x == excluded {
      forall i, j | 0 <= i < j < |all| && all[i] == all[j] ensures all[i] == excluded {
        assert all[j] == rest[j - 1];
        if i > 0 {
          assert all[i] == rest[i - 1] == names[i - 1];
          assert j - 1 == |names| && all[j] == last[0];
          assert last[0] in last && last[0] in names;
        } else {
          assert rest[j - 1] in rest;
        }
      }
    }
    if first in rest {
      var i :| 0 <= i < |rest| && rest[i] == first;
      assert all[0] == all[i + 1];
    }
    if x :| x in last && x in names && x != excluded {
      var i :| 0 <= i < |names| && names[i] == x;
      assert all[i + 1] == x && all[|names| + 1] == x;
    }
  }

  lemma EntityAsked(e: EventTable, x: string)
    requires UniqueNames(e.columns) && !IsRecordCreation(e.recordCreationTimestampColumn, x)
    ensures x in EntityColumns(EventGetView(e, AUTOMATIC).value.columnsInfo) <==> HasEntity(e.columns, x)
  {
    AutomaticColumns(e.columns, e.recordCreationTimestampColumn, e.id);
    EntityMembers(EventGetView(e, AUTOMATIC).value.columnsInfo);
  }

  lemma SoundRepeats(e: EventTable)
    requires UniqueNames(e.columns) && !IsRecordCreation(e.recordCreationTimestampColumn, e.timestampColumn)
    requires forall x :: e.timezoneOffsetColumn == Some(x) ==> !IsRecordCreation(e.recordCreationTimestampColumn, x)
    ensures var join := JoinColumns(e, EventGetView(e, AUTOMATIC).value, Auto, []);
            NoDuplicates(Excluding(join, e.eventIdColumn)) <==>
            && (e.timestampColumn != e.eventIdColumn ==>
                  !HasEntity(e.columns, e.timestampColumn) && e.timezoneOffsetColumn != Some(e.timestampColumn))
            && (e.timezoneOffsetColumn.Some? && e.timezoneOffsetColumn.value != e.eventIdColumn ==>
                  !HasEntity(e.columns, e.timezoneOffsetColumn.value))
  {
    var event := EventGetView(e, AUTOMATIC).value;
    var names := EntityColumns(event.columnsInfo);
    var last := if e.timezoneOffsetColumn.Some? then [e.timezoneOffsetColumn.value] else [];
    KeptMembers(e.columns, event.metadata.drop);
    EntitiesAreDistinct(event.columnsInfo);
    RepeatsAtEnds(e.timestampColumn, names, last, e.eventIdColumn);
    EntityAsked(e, e.timestampColumn);
    if e.timezoneOffsetColumn.Some? { EntityAsked(e, e.timezoneOffsetColumn.value); }
  }

  lemma SoundIff(e: EventTable)
    requires UniqueNames(e.columns)
    ensures var event := EventGetView(e, AUTOMATIC).value;
            var join := JoinColumns(e, event, Auto, []);
            RequestIsSound(e)
            <==> (forall x <- join :: x in event.columns) && NoDuplicates(Excluding(join, e.eventIdColumn))
  {
    RequestMembers(e);
    if forall x <- JoinColumns(e, EventGetView(e, AUTOMATIC).value, Auto, []) ::
         x in EventGetView(e, AUTOMATIC).value.columns
    {
      SoundRepeats(e);
    }
  }

  /** Where the request is sound, what is left of it after the event id are the names of the columns
      joined automatically. */
  lemma SoundInput(e: EventTable, d: ColumnInfo)
    requires UniqueNames(e.columns) && RequestIsSound(e) && d in e.columns
    ensures var join := JoinColumns(e, EventGetView(e, AUTOMATIC).value, Auto, []);
            d.name in Excluding(join, e.eventIdColumn) <==> JoinedAutomatically(e, d)
  {
    var event := EventGetView(e, AUTOMATIC).value;
    var join := JoinColumns(e, event, Auto, []);
    SoundIff(e);
    ExcludingMembers(join, e.eventIdColumn);
    JoinedNameIff(e, event, join, d.name);
    if d.name in join && d.name != e.eventIdColumn {
      var c :| c in e.columns && c.name == d.name && JoinedAutomatically(e, c);
      UniqueByName(e.columns, c, d);
    }
  }

  /** Some joined column, under its new name, is a column the item view keeps. */
  ghost predicate ClashesAutomatically(t: ItemTable, e: EventTable, suffix: string) {
    exists d <- e.columns :: JoinedAutomatically(e, d)
      && KeptAutomatically(t.columns, t.recordCreationTimestampColumn, d.name + suffix)
  }

  lemma ClashesAutomaticallyIff(t: ItemTable, e: EventTable, suffix: string)
    requires UniqueNames(t.columns) && UniqueNames(e.columns) && RequestIsSound(e)
    ensures var join := JoinColumns(e, EventGetView(e, AUTOMATIC).value, Auto, []);
            var item := BuildView(t.columns, t.recordCreationTimestampColumn, t.id, AUTOMATIC).value;
            ClashesAutomatically(t, e, suffix)
            <==> exists c <- Suffixed(Excluding(join, e.eventIdColumn), suffix) :: c in item.columns
  {
    var event := EventGetView(e, AUTOMATIC).value;
    var join := JoinColumns(e, event, Auto, []);
    var input := Excluding(join, e.eventIdColumn);
    var item := BuildView(t.columns, t.recordCreationTimestampColumn, t.id, AUTOMATIC).value;
    if ClashesAutomatically(t, e, suffix) {
      var d :| d in e.columns && JoinedAutomatically(e, d)
        && KeptAutomatically(t.columns, t.recordCreationTimestampColumn, d.name + suffix);
      SoundInput(e, d);
      SuffixedMembers(input, suffix, d.name);
      KeptIsColumn(t.columns, t.recordCreationTimestampColumn, t.id, d.name + suffix);
    }
    if c :| c in Suffixed(input, suffix) && c in item.columns {
      var i :| 0 <= i < |input| && Suffixed(input, suffix)[i] == c;
      assert input[i] in input;
      SoundIff(e);
      ExcludingMembers(join, e.eventIdColumn);
      JoinedNameIff(e, event, join, input[i]);
      KeptIsColumn(t.columns, t.recordCreationTimestampColumn, t.id, c);
    }
  }

  /** Automatic mode gives an item view exactly when the request is sound and nothing clashes. */
  lemma AutomaticAcceptedIff(t: ItemTable, e: EventTable, suffix: string)
    requires UniqueNames(t.columns) && UniqueNames(e.columns)
    ensures ItemGetView(t, e, suffix, AUTOMATIC_ITEM).Success?
            <==> RequestIsSound(e) && !ClashesAutomatically(t, e, suffix)
  {
    SoundIff(e);
    if RequestIsSound(e) { ClashesAutomaticallyIff(t, e, suffix); }
  }

  /** A timestamp column that carries an entity is asked for twice: the event view alone is accepted, and
      every automatic item view over it is refused. */
  lemma TaggedTimestampIsRefused(t: ItemTable, e: EventTable, suffix: string)
    requires UniqueNames(t.columns) && UniqueNames(e.columns)
    requires e.timestampColumn != e.eventIdColumn && HasEntity(e.columns, e.timestampColumn)
    ensures EventGetView(e, AUTOMATIC).Success? && ItemGetView(t, e, suffix, AUTOMATIC_ITEM).Failure?
  {
    AutomaticAcceptedIff(t, e, suffix);
  }

  lemma {:induction false} IndexFinds(names: seq<string>, name: string)
    requires name in names
    ensures names[IndexIn(names, name)] == name
  {
    if names[0] != name { IndexFinds(names[1..], name); }
  }

  /** The cells of a joined row: the item's own, and under each output name the event's input cell, or
      nothing where the event has none. */
  lemma JoinedCells(v: ItemView, own: Row, event: Row)
    requires |v.joinInput| == |v.joinOutput| && NoDuplicates(v.joinOutput)
    ensures var row := JoinedRow(v, own, event);
            && (forall c :: c in row <==> c in own || c in v.joinOutput)
            && (forall c <- own :: c !in v.joinOutput ==> row[c] == own[c])
            && (forall k :: 0 <= k < |v.joinOutput| ==>
                  row[v.joinOutput[k]] == if v.joinInput[k] in event then event[v.joinInput[k]] else Missing)
  {
    forall k | 0 <= k < |v.joinOutput| ensures IndexIn(v.joinOutput, v.joinOutput[k]) == k {
      IndexFinds(v.joinOutput, v.joinOutput[k]);
    }
  }

  /** The cleaned event row matches the item row's cleaned event id. */
  predicate Matches(w: Warehouse, v: ItemView, own: Row, event: Row) {
    var cleaned := EvalRow(w, v.event, event);
    v.leftOn in own && !own[v.leftOn].Missing? && v.rightOn in cleaned && cleaned[v.rightOn] == own[v.leftOn]
  }

  /** How many of the events match. */
  function MatchCount(w: Warehouse, v: ItemView, own: Row, events: seq<Row>): nat {
    if events == [] then 0
    else (if Matches(w, v, own, events[0]) then 1 else 0) + MatchCount(w, v, own, events[1..])
  }

  lemma {:induction false} MatchingIs(w: Warehouse, v: ItemView, own: Row, events: seq<Row>)
    requires v.leftOn in own
    ensures |Matching(w, v, own[v.leftOn], events)| == MatchCount(w, v, own, events)
    ensures forall r :: r in Matching(w, v, own[v.leftOn], events)
              <==> exists event <- events :: Matches(w, v, own, event) && r == EvalRow(w, v.event, event)
  {
    if events != [] {
      MatchingIs(w, v, own, events[1..]);
      assert forall event :: event in events <==> event == events[0] || event in events[1..];
    }
  }

  lemma RowsFrom(w: Warehouse, v: ItemView, own: Row, events: seq<Row>, matching: seq<Row>, rows: seq<Row>, r: Row)
    requires |v.joinInput| == |v.joinOutput| && |rows| == |matching|
    requires forall i :: 0 <= i < |rows| ==> rows[i] == JoinedRow(v, own, matching[i])
    requires forall m :: m in matching
               <==> exists event <- events :: Matches(w, v, own, event) && m == EvalRow(w, v.event, event)
    ensures r in rows <==>
            exists event <- events :: Matches(w, v, own, event) && r == JoinedRow(v, own, EvalRow(w, v.event, event))
  {
    if r in rows {
      var i :| 0 <= i < |rows| && rows[i] == r;
      assert matching[i] in matching;
    }
    if event :| event in events && Matches(w, v, own, event) && r == JoinedRow(v, own, EvalRow(w, v.event, event)) {
      var m := EvalRow(w, v.event, event);
      assert m in matching;
      var i :| 0 <= i < |matching| && matching[i] == m;
      assert rows[i] == r;
    }
  }

  lemma {:induction false} NoMatches(w: Warehouse, v: ItemView, own: Row, events: seq<Row>)
    requires v.leftOn !in own
    ensures MatchCount(w, v, own, events) == 0
  {
    if events != [] { NoMatches(w, v, own, events[1..]); }
  }

  /** The rows an item view gives for an item row: one for every matching event, with its cells, and one
      with no event's cells if none matches. */
  lemma ItemRows(w: Warehouse, v: ItemView, row: Row, events: seq<Row>)
    requires |v.joinInput| == |v.joinOutput|
    ensures var own, rows := EvalRow(w, v.item, row), EvalItemRow(w, v, row, events);
            var matches := MatchCount(w, v, own, events);
            && |rows| == (if matches == 0 then 1 else matches)
            && (matches == 0 ==> rows == [JoinedRow(v, own, map[])])
            && (matches > 0 ==> forall r :: r in rows <==>
                  exists event <- events ::
                    Matches(w, v, own, event) && r == JoinedRow(v, own, EvalRow(w, v.event, event)))
  {
    var own, rows := EvalRow(w, v.item, row), EvalItemRow(w, v, row, events);
    if v.leftOn in own {
      MatchingIs(w, v, own, events);
      var matching := Matching(w, v, own[v.leftOn], events);
      if matching != [] {
        forall r ensures r in rows <==>
          exists event <- events :: Matches(w, v, own, event) && r == JoinedRow(v, own, EvalRow(w, v.event, event))
        {
          RowsFrom(w, v, own, events, matching, rows, r);
        }
      }
    } else {
      NoMatches(w, v, own, events);
    }
  }
}
