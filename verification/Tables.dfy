/** Table records, and the server routes that read, create and patch them
    (featurebyte/routes/common/base_table.py, featurebyte/service/base_document.py). */
module Tables {
  import opened Wrappers
  import opened Cleaning

  /** Tags the server puts on the special columns of a new event table. */
  datatype Semantic = EventTimestamp | EventId | OtherSemantic(id: nat)

  datatype ColumnInfo = ColumnInfo(
    name: string,
    dtype: string,
    entityId: Option<nat>,
    semantic: Option<Semantic>,
    criticalDataInfo: Option<seq<CleaningOperation>>)

  type Columns = seq<ColumnInfo>

  /** The validator on every columns_info list. */
  predicate UniqueNames(columns: Columns) {
    forall i, j :: 0 <= i < j < |columns| ==> columns[i].name != columns[j].name
  }

  datatype TableRecord = TableRecord(
    id: nat,
    name: string,
    source: string,
    deprecated: bool,
    eventTimestampColumn: string,
    eventIdColumn: string,
    columns: Columns,
    recordCreationTimestampColumn: Option<string>,
    defaultFeatureJobSetting: Option<string>)

  type Records = map<nat, TableRecord>

  /** Every record is stored under its own id and has distinct column names. */
  predicate ValidRecords(records: Records) {
    forall id <- records :: records[id].id == id && UniqueNames(records[id].columns)
  }

  /** The server keeps table names unique. */
  predicate UniqueTableNames(records: Records) {
    forall i <- records, j <- records :: records[i].name == records[j].name ==> i == j
  }

  function SemanticOf(r: TableRecord, column: string): Option<Semantic> {
    if column == r.eventIdColumn then Some(EventId)
    else if column == r.eventTimestampColumn then Some(EventTimestamp)
    else None
  }

  /** What `_add_semantic_tags` does to one column of a freshly created table. */
  function TagColumn(r: TableRecord, c: ColumnInfo): ColumnInfo {
    var tag := SemanticOf(r, c.name);
    if tag.Some? then c.(semantic := tag) else c
  }

  function Tagged(r: TableRecord): TableRecord {
    r.(columns := seq(|r.columns|, i requires 0 <= i < |r.columns| => TagColumn(r, r.columns[i])))
  }

  /** The unique constraints checked on creation: id, name, and source among tables not deprecated. */
  predicate Conflicts(existing: TableRecord, r: TableRecord) {
    existing.id == r.id || existing.name == r.name
    || (existing.source == r.source && !existing.deprecated)
  }

  predicate Conflict(records: Records, r: TableRecord) {
    exists id <- records :: Conflicts(records[id], r)
  }

  /** POST: the store with the tagged record, unless a uniqueness constraint answers 409. */
  function Post(records: Records, r: TableRecord): Records {
    if Conflict(records, r) then records else records[r.id := Tagged(r)]
  }

  /** Payload of PATCH. An absent field is sent as null and dropped by the server. */
  datatype Payload = Payload(
    columns: Option<Columns>,
    recordCreationTimestampColumn: Option<string>,
    defaultFeatureJobSetting: Option<string>)

  function Override<T>(current: Option<T>, update: Option<T>): Option<T> {
    if update.Some? then update else current
  }

  /** PATCH on an existing record; an empty column list counts as absent. */
  function Patched(r: TableRecord, p: Payload): TableRecord {
    r.(columns := if p.columns.Some? && |p.columns.value| > 0 then p.columns.value else r.columns,
       recordCreationTimestampColumn :=
         Override(r.recordCreationTimestampColumn, p.recordCreationTimestampColumn),
       defaultFeatureJobSetting := Override(r.defaultFeatureJobSetting, p.defaultFeatureJobSetting))
  }

  /** The payload a handle builds for PATCH: its own local fields, overridden by the change. */
  function FullPayload(local: TableRecord, change: Payload): Payload {
    Payload(
      if change.columns.Some? then change.columns else Some(local.columns),
      Override(local.recordCreationTimestampColumn, change.recordCreationTimestampColumn),
      Override(local.defaultFeatureJobSetting, change.defaultFeatureJobSetting))
  }
}
