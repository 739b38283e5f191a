/** What `save` answers and what it creates, field by field (featurebyte/api/savable_api_object.py,
    featurebyte/models/feature_store.py, featurebyte/routes/common/base_table.py). */
module Saving {
  import opened Wrappers
  import opened Tables
  import opened ApiObjects

  /** The record stands in the way of `r`: same id, same name, or same source and not deprecated. */
  predicate InTheWay(existing: TableRecord, r: TableRecord) {
    existing.id == r.id || existing.name == r.name || (existing.source == r.source && !existing.deprecated)
  }

  ghost predicate Blocked(records: Records, r: TableRecord) {
    exists id :: id in records && InTheWay(records[id], r)
  }

  lemma BlockedIff(records: Records, r: TableRecord)
    ensures Blocked(records, r) <==> Conflict(records, r)
  {
    if id :| id in records && InTheWay(records[id], r) { assert Conflicts(records[id], r); }
    if id :| id in records && Conflicts(records[id], r) { assert InTheWay(records[id], r); }
  }

  /** A column of a new table as the server stores it: the event timestamp and the event id column get
      their tags, and the id wins where both are one. */
  predicate StoredColumn(r: TableRecord, sent: ColumnInfo, stored: ColumnInfo) {
    && stored.name == sent.name && stored.dtype == sent.dtype
    && stored.entityId == sent.entityId && stored.criticalDataInfo == sent.criticalDataInfo
    && stored.semantic == if sent.name == r.eventIdColumn then Some(EventId)
                          else if sent.name == r.eventTimestampColumn then Some(EventTimestamp)
                          else sent.semantic
  }

  /** A new table as the server stores it: all else is as sent. */
  predicate StoredAs(sent: TableRecord, stored: TableRecord) {
    && stored == sent.(columns := stored.columns) && |stored.columns| == |sent.columns|
    && forall i :: 0 <= i < |sent.columns| ==> StoredColumn(sent, sent.columns[i], stored.columns[i])
  }

  /** `save` that raises on a conflict: it succeeds exactly when every record differs in id and name and
      every record of its source is deprecated; then the table is stored as sent, tagged, and nothing else
      changes. */
  lemma SaveRaising(s: Session, local: TableRecord)
    requires s.Valid()
    ensures var e := Save(s, local, Raise);
            && (e.result.Success? <==> forall id <- s.records ::
                  && s.records[id].id != local.id && s.records[id].name != local.name
                  && (s.records[id].source == local.source ==> s.records[id].deprecated))
            && (e.result.Success? ==> StoredAs(local, e.local) && e.session.records == s.records[local.id := e.local])
            && (e.result.Failure? ==>
                  && e.local == local && e.session.records == s.records
                  && e.result.error == if local.id in s.records then ObjectHasBeenSavedError
                                       else DuplicatedRecordException)
  {
    BlockedIff(s.records, local);
    assert Blocked(s.records, local) <==> !forall id <- s.records ::
             && s.records[id].id != local.id && s.records[id].name != local.name
             && (s.records[id].source == local.source ==> s.records[id].deprecated);
    if local.id in s.records { assert InTheWay(s.records[local.id], local); }
  }

  /** `save` that retrieves on a conflict: an existing record of the name takes the handle's place, and
      without one the conflict raises; the server changes only when nothing was in the way. */
  lemma SaveRetrieving(s: Session, local: TableRecord)
    requires s.Valid()
    ensures var e := Save(s, local, Retrieve);
            if !Blocked(s.records, local) then
              && e.result == Success(()) && StoredAs(local, e.local)
              && e.session.records == s.records[local.id := e.local]
            else
              && e.session.records == s.records
              && (e.result == if exists id <- s.records :: s.records[id].name == local.name then Success(())
                              else Failure(RecordRetrievalException))
              && (e.result.Success? ==> e.local in s.records.Values && e.local.name == local.name)
              && (e.result.Failure? ==> e.local == local)
  {
    BlockedIff(s.records, local);
    if NameTaken(s.records, local.name) {
      assert ByName(s.records, local.name) in s.records.Values;
    }
  }
}
