/** The object protocol of the SDK: handles with local copies, one shared time-to-live cache, and
    read-modify-write updates (featurebyte/api/api_object.py, savable_api_object.py, base_table.py). */
module ApiObjects {
  import opened Wrappers
  import opened Cleaning
  import opened Tables

  /** One second, in microseconds. */
  const TTL := 1_000_000

  /** A cached model and the moment it expires. */
  datatype Entry = Entry(record: TableRecord, expires: int)

  type Cache = map<nat, Entry>

  /** The server's records, the cache of one process, and its clock. */
  datatype Session = Session(records: Records, cache: Cache, now: int) {
    /** A cached model is used strictly before it expires. */
    predicate Live(id: nat) {
      id in cache && now < cache[id].expires
    }

    /** `_update_cache` */
    function Store(r: TableRecord): Session {
      this.(cache := cache[r.id := Entry(r, now + TTL)])
    }

    function Elapse(pause: nat): Session {
      this.(now := now + pause)
    }

    /** An unexpired cache entry equals the server's record. */
    predicate Coherent() {
      forall id <- cache :: Live(id) ==> id in records && cache[id].record == records[id]
    }

    predicate Valid() {
      ValidRecords(records) && (forall id <- cache :: cache[id].record.id == id)
    }
  }

  /** `_get_object_dict_by_id`: GET by id, and the answer goes into the cache. */
  function Fetch(s: Session, id: nat): (Result<TableRecord>, Session) {
    if id in s.records then (Success(s.records[id]), s.Store(s.records[id]))
    else (Failure(RecordRetrievalException), s)
  }

  /** `cached_model` */
  function Read(s: Session, id: nat): (Result<TableRecord>, Session) {
    if s.Live(id) then (Success(s.cache[id].record), s) else Fetch(s, id)
  }

  /** `columns_info`: the cached model's columns, or the local ones of an object not saved yet. */
  function ColumnsInfo(s: Session, local: TableRecord): (Columns, Session) {
    var (model, s') := Read(s, local.id);
    (if model.Success? then model.value.columns else local.columns, s')
  }

  /** The same when a GET it needs fails for whatever reason: then the local columns stand in too. */
  function ColumnsUnder(s: Session, local: TableRecord, outage: bool): (Columns, Session) {
    if outage && !s.Live(local.id) then (local.columns, s) else ColumnsInfo(s, local)
  }

  /** What a call leaves behind: its own result, the session, and the handle's local fields. */
  datatype Effect = Effect(result: Result<()>, session: Session, local: TableRecord)

  /** `setattr` of every changed field, on an object the server does not know. */
  function LocallyUpdated(local: TableRecord, change: Payload): TableRecord {
    local.(columns := change.columns.GetOr(local.columns),
           recordCreationTimestampColumn :=
             Override(local.recordCreationTimestampColumn, change.recordCreationTimestampColumn),
           defaultFeatureJobSetting :=
             Override(local.defaultFeatureJobSetting, change.defaultFeatureJobSetting))
  }

  /** `update` with local updates allowed. */
  function Update(s: Session, local: TableRecord, change: Payload): Effect {
    if local.id in s.records then
      var updated := Patched(s.records[local.id], FullPayload(local, change));
      Effect(Success(()), s.(records := s.records[local.id := updated]).Store(updated), updated)
    else
      Effect(Success(()), s, LocallyUpdated(local, change))
  }

  /** What `save` does when the server answers 409. */
  datatype ConflictResolution = Raise | Retrieve

  ghost predicate NameTaken(records: Records, name: string) {
    exists id <- records :: records[id].name == name
  }

  /** GET by name; the server keeps names unique. */
  ghost function ByName(records: Records, name: string): (r: TableRecord)
    requires NameTaken(records, name)
  {
    var id :| id in records && records[id].name == name;
    records[id]
  }

  /** `save` */
  ghost function Save(s: Session, local: TableRecord, resolution: ConflictResolution): Effect {
    // the check whether the object is saved goes to the server and refreshes the cache
    var s' := Fetch(s, local.id).1;
    if local.id in s.records && resolution == Raise then
      Effect(Failure(ObjectHasBeenSavedError), s', local)
    else if !Conflict(s.records, local) then
      var created := Tagged(local);
      Effect(Success(()), s'.(records := Post(s.records, local)).Store(created), created)
    else if resolution == Raise then
      Effect(Failure(DuplicatedRecordException), s', local)
    else if NameTaken(s.records, local.name) then
      var existing := ByName(s.records, local.name);
      Effect(Success(()), s'.Store(existing), existing)
    else
      Effect(Failure(RecordRetrievalException), s', local)
  }

  /** The edits a user makes through a handle. */
  datatype Edit =
    | AsEntity(column: string, entity: Option<nat>)
    | UpdateCriticalDataInfo(column: string, operations: seq<CleaningOperation>)
    | UpdateRecordCreationTimestampColumn(name: string)
    | UpdateDefaultFeatureJobSetting(setting: string)
  {
    predicate IsColumnEdit() {
      AsEntity? || UpdateCriticalDataInfo?
    }
    predicate Accepted() {
      UpdateCriticalDataInfo? ==> ValidOperations(operations)
    }
    function OnColumn(c: ColumnInfo): ColumnInfo
      requires IsColumnEdit()
    {
      if AsEntity? then c.(entityId := entity) else c.(criticalDataInfo := Some(operations))
    }
  }

  predicate HasColumn(columns: Columns, name: string) {
    exists i :: 0 <= i < |columns| && columns[i].name == name
  }

  /** `TableColumn.info`: the first column with that name. */
  function InfoOf(columns: Columns, name: string): (c: ColumnInfo)
    requires HasColumn(columns, name)
    ensures c in columns && c.name == name
  {
    if columns[0].name == name then
      columns[0]
    else
      assert HasColumn(columns[1..], name) by {
        var i :| 0 <= i < |columns| && columns[i].name == name;
        assert columns[1..][i - 1].name == name;
      }
      InfoOf(columns[1..], name)
  }

  /** `_prepare_columns_info`: the columns with every one of that name replaced by `info`. */
  function Replaced(columns: Columns, info: ColumnInfo): (r: Columns) {
    seq(|columns|, i requires 0 <= i < |columns| => if columns[i].name == info.name then info else columns[i])
  }

  function ColumnsPayload(columns: Columns): Payload {
    Payload(Some(columns), None, None)
  }

  /** The payload of a column edit: the column as first read, edited, in the list as read later. */
  function EditPayload(columns: Columns, later: Columns, edit: Edit): Payload
    requires edit.IsColumnEdit() && HasColumn(columns, edit.column)
  {
    ColumnsPayload(Replaced(later, edit.OnColumn(InfoOf(columns, edit.column))))
  }

  /** One edit through a handle. A column edit reads the model twice: once for the column itself and,
      after a pause, for the list it goes into. */
  function Apply(s: Session, local: TableRecord, edit: Edit, pause: nat): Effect {
    match edit
    case UpdateRecordCreationTimestampColumn(name) => Update(s, local, Payload(None, Some(name), None))
    case UpdateDefaultFeatureJobSetting(setting) => Update(s, local, Payload(None, None, Some(setting)))
    case _ =>
      if !edit.Accepted() then Effect(Failure(ValueError), s, local)
      else
        var (columns, s1) := ColumnsInfo(s, local);
        if !HasColumn(columns, edit.column) then Effect(Failure(KeyError), s1, local)
        else
          var (later, s2) := ColumnsInfo(s1.Elapse(pause), local);
          Update(s2, local, EditPayload(columns, later, edit))
  }

  /** A status of PATCH other than 200 and 404. */
  datatype Trouble = ConflictStatus | OtherStatus

  /** Which of the two reads of a column edit fall into an outage. */
  datatype Outages = Outages(first: bool, second: bool)

  /** The reads of a column edit: the two lists, if the first has the column, and the session they leave. */
  function EditReads(s: Session, local: TableRecord, edit: Edit, pause: nat, o: Outages)
    : (Option<(Columns, Columns)>, Session)
    requires edit.IsColumnEdit()
  {
    var (columns, s1) := ColumnsUnder(s, local, o.first);
    if !HasColumn(columns, edit.column) then (None, s1)
    else
      var (later, s2) := ColumnsUnder(s1.Elapse(pause), local, o.second);
      (Some((columns, later)), s2)
  }

  /** One column edit through a handle while reads may fail. */
  function ApplyUnder(s: Session, local: TableRecord, edit: Edit, pause: nat, o: Outages): Effect
    requires edit.IsColumnEdit()
  {
    if !edit.Accepted() then Effect(Failure(ValueError), s, local)
    else
      var (lists, s') := EditReads(s, local, edit, pause, o);
      if lists.None? then Effect(Failure(KeyError), s', local)
      else Update(s', local, EditPayload(lists.value.0, lists.value.1, edit))
  }

  /** What an edit leaves of the session when its PATCH is answered with trouble: its reads. */
  function AfterReads(s: Session, local: TableRecord, edit: Edit, pause: nat, o: Outages): Session
    requires edit.IsColumnEdit()
  {
    if edit.Accepted() then EditReads(s, local, edit, pause, o).1 else s
  }

  lemma WithoutOutages(s: Session, local: TableRecord, edit: Edit, pause: nat)
    requires edit.IsColumnEdit()
    ensures ApplyUnder(s, local, edit, pause, Outages(false, false)) == Apply(s, local, edit, pause)
  {
  }

  /** The server and the cache every handle of a process shares. */
  class ApiSession {
    var records: Records
    var cache: Cache
    var now: int

    function State(): Session
      reads this
    {
      Session(records, cache, now)
    }

    constructor (records: Records)
      ensures State() == Session(records, map[], 0)
    {
      this.records, this.cache, this.now := records, map[], 0;
    }

    method Elapse(pause: nat)
      modifies this`now
      ensures State() == old(State()).Elapse(pause)
    {
      now := now + pause;
    }

    method UpdateCache(r: TableRecord)
      modifies this`cache
      ensures State() == old(State()).Store(r)
    {
      cache := cache[r.id := Entry(r, now + TTL)];
    }

    method GetObjectDictById(id: nat) returns (r: Result<TableRecord>)
      modifies this`cache
      ensures (r, State()) == Fetch(old(State()), id)
    {
      if id !in records {
        return Failure(RecordRetrievalException);
      }
      UpdateCache(records[id]);
      r := Success(records[id]);
    }

    /** `outage`: a GET is answered with an error. */
    method CachedModel(id: nat, outage: bool) returns (r: Result<TableRecord>)
      modifies this`cache
      ensures outage && !old(State()).Live(id) ==> r == Failure(RecordRetrievalException) && State() == old(State())
      ensures !outage || old(State()).Live(id) ==> (r, State()) == Read(old(State()), id)
    {
      if id in cache && now < cache[id].expires {
        return Success(cache[id].record);
      }
      if outage {
        return Failure(RecordRetrievalException);
      }
      r := GetObjectDictById(id);
    }
  }

  /** A table object: the identity and local fields of one handle. */
  class TableHandle {
    const api: ApiSession
    var local: TableRecord

    constructor (api: ApiSession, fields: TableRecord)
      ensures this.api == api && local == fields
    {
      this.api, this.local := api, fields;
    }

    method ReadColumnsInfo(outage: bool) returns (columns: Columns)
      modifies api`cache
      ensures (columns, api.State()) == ColumnsUnder(old(api.State()), local, outage)
    {
      var model := api.CachedModel(local.id, outage);
      columns := if model.Success? then model.value.columns else local.columns;
    }

    /** PATCH, then the cache and the handle take the server's answer; 404 edits the handle alone, and
        any other status changes nothing. */
    method SendUpdate(change: Payload, trouble: Option<Trouble>) returns (r: Result<()>)
      modifies api, this`local
      ensures trouble.None? ==> Effect(r, api.State(), local) == Update(old(api.State()), old(local), change)
      ensures trouble.Some? ==>
                && r == Failure(match trouble.value
                                case ConflictStatus => DuplicatedRecordException
                                case OtherStatus => RecordUpdateException)
                && api.State() == old(api.State()) && local == old(local)
    {
      if trouble.Some? {
        return Failure(if trouble.value.ConflictStatus? then DuplicatedRecordException else RecordUpdateException);
      }
      if local.id in api.records {
        var updated := Patched(api.records[local.id], FullPayload(local, change));
        api.records := api.records[local.id := updated];
        api.UpdateCache(updated);
        local := updated;
      } else {
        if change.columns.Some? {
          local := local.(columns := change.columns.value);
        }
        if change.recordCreationTimestampColumn.Some? {
          local := local.(recordCreationTimestampColumn := change.recordCreationTimestampColumn);
        }
        if change.defaultFeatureJobSetting.Some? {
          local := local.(defaultFeatureJobSetting := change.defaultFeatureJobSetting);
        }
      }
      r := Success(());
    }

    method PrepareColumnsInfo(info: ColumnInfo, outage: bool) returns (columns: Columns)
      modifies api`cache
      ensures var (current, s) := ColumnsUnder(old(api.State()), local, outage);
              columns == Replaced(current, info) && api.State() == s
    {
      var current := ReadColumnsInfo(outage);
      columns := [];
      for i := 0 to |current|
        invariant columns == Replaced(current, info)[..i]
      {
        if current[i].name == info.name {
          columns := columns + [info];
        } else {
          columns := columns + [current[i]];
        }
      }
    }

    /** `as_entity` and `update_critical_data_info`. */
    method EditColumn(edit: Edit, pause: nat, o: Outages, trouble: Option<Trouble>) returns (r: Result<()>)
      requires edit.IsColumnEdit()
      modifies api, this`local
      ensures trouble.None? ==>
                Effect(r, api.State(), local) == ApplyUnder(old(api.State()), old(local), edit, pause, o)
      ensures trouble.Some? ==>
                && local == old(local) && api.State() == AfterReads(old(api.State()), old(local), edit, pause, o)
                && var answered := ApplyUnder(old(api.State()), old(local), edit, pause, o).result;
                && (answered.Failure? ==> r == answered)
                && (answered.Success? && trouble == Some(ConflictStatus) ==> r == Failure(DuplicatedRecordException))
                && (answered.Success? && trouble == Some(OtherStatus) ==> r == Failure(RecordUpdateException))
    {
      if edit.UpdateCriticalDataInfo? && !ValidOperations(edit.operations) {
        return Failure(ValueError);
      }
      var columns := ReadColumnsInfo(o.first);
      if !HasColumn(columns, edit.column) {
        return Failure(KeyError);
      }
      var info := edit.OnColumn(InfoOf(columns, edit.column));
      api.Elapse(pause);
      var payload := PrepareColumnsInfo(info, o.second);
      r := SendUpdate(ColumnsPayload(payload), trouble);
    }

    /** `outage`: POST is answered with a status other than 201 and 409. */
    method SaveTable(resolution: ConflictResolution, outage: bool) returns (r: Result<()>)
      requires UniqueTableNames(api.records)
      modifies api, this`local
      ensures !outage ==> Effect(r, api.State(), local) == Save(old(api.State()), old(local), resolution)
      ensures outage ==>
                && local == old(local) && api.State() == Fetch(old(api.State()), local.id).1
                && r == Failure(if local.id in api.records && resolution == Raise then ObjectHasBeenSavedError
                                else RecordCreationException)
    {
      var saved := api.GetObjectDictById(local.id);
      if saved.Success? && resolution == Raise {
        return Failure(ObjectHasBeenSavedError);
      }
      if outage {
        return Failure(RecordCreationException);
      }
      if !Conflict(api.records, local) {
        api.records := api.records[local.id := Tagged(local)];
        local := Tagged(local);
      } else if resolution == Raise {
        return Failure(DuplicatedRecordException);
      } else if id :| id in api.records && api.records[id].name == local.name {
        assert api.records[id] == ByName(api.records, local.name);
        local := api.records[id];
      } else {
        return Failure(RecordRetrievalException);
      }
      api.UpdateCache(local);
      r := Success(());
    }
  }

  /** `create`, which fails on a taken name before it builds a handle, and `get_or_create`. */
  method CreateTable(api: ApiSession, record: TableRecord) returns (r: Result<TableHandle>)
    requires UniqueTableNames(api.records)
    modifies api
    ensures var s := old(api.State());
      if NameTaken(s.records, record.name) then
        r == Failure(DuplicatedRecordException) && api.State() == s
      else
        var e := Save(s, record, Raise);
        && api.State() == e.session
        && (e.result.Success? ==> r.Success? && fresh(r.value) && r.value.api == api && r.value.local == e.local)
        && (e.result.Failure? ==> r == Failure(e.result.error))
  {
    if id :| id in api.records && api.records[id].name == record.name {
      return Failure(DuplicatedRecordException);
    }
    var table := new TableHandle(api, record);
    var saved := table.SaveTable(Raise, false);
    r := if saved.Success? then Success(table) else Failure(saved.error);
  }

  method GetOrCreateTable(api: ApiSession, record: TableRecord) returns (r: Result<TableHandle>)
    requires UniqueTableNames(api.records)
    modifies api
    ensures var s := old(api.State());
      NameTaken(s.records, record.name) ==>
        && api.State() == s && r.Success? && fresh(r.value)
        && r.value.api == api && r.value.local == ByName(s.records, record.name)
    ensures var s, e := old(api.State()), Save(old(api.State()), record, Raise);
      !NameTaken(s.records, record.name) ==>
        && api.State() == e.session
        && (e.result.Success? ==> r.Success? && fresh(r.value) && r.value.api == api && r.value.local == e.local)
        && (e.result.Failure? ==> r == Failure(e.result.error))
  {
    if id :| id in api.records && api.records[id].name == record.name {
      assert api.records[id] == ByName(api.records, record.name);
      var table := new TableHandle(api, api.records[id]);
      return Success(table);
    }
    r := CreateTable(api, record);
  }
}
