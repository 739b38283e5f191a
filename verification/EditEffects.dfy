/** What an edit does, field by field, and what is left of the edits after a run: the columns' entities
    and cleaning operations are those of the last edit that named them
    (featurebyte/api/base_table.py, featurebyte/api/event_table.py). */
module EditEffects {
  import opened Wrappers
  import opened Cleaning
  import opened Tables
  import opened ApiObjects
  import opened ColumnEdits

  /** The record a column edit leaves: new columns, and every other field as the handle has it, or the
      server's where the handle has none. */
  function WithColumns(before: TableRecord, local: TableRecord, columns: Columns): TableRecord {
    before.(
      columns := columns,
      recordCreationTimestampColumn :=
        if local.recordCreationTimestampColumn.Some? then local.recordCreationTimestampColumn
        else before.recordCreationTimestampColumn,
      defaultFeatureJobSetting :=
        if local.defaultFeatureJobSetting.Some? then local.defaultFeatureJobSetting
        else before.defaultFeatureJobSetting)
  }

  ghost predicate NamesColumn(columns: Columns, name: string) {
    exists i :: 0 <= i < |columns| && columns[i].name == name
  }

  lemma PatchedIs(before: TableRecord, local: TableRecord, edit: Edit)
    requires Applies(before.columns, edit)
    ensures PatchedColumns(before, local, edit) == WithColumns(before, local, OnColumns(before.columns, edit))
  {
    assert |OnColumns(before.columns, edit)| > 0;
  }

  /** Any column edit of a saved table: its outcome, and the records after it. */
  lemma ColumnEditIs(s: Session, local: TableRecord, edit: Edit, pause: nat)
    requires s.Valid() && s.Coherent() && local.id in s.records && edit.IsColumnEdit()
    ensures var before, e := s.records[local.id], Apply(s, local, edit, pause);
            var after := WithColumns(before, local, OnColumns(before.columns, edit));
            && (e.result == if !edit.Accepted() then Failure(ValueError)
                            else if NamesColumn(before.columns, edit.column) then Success(())
                            else Failure(KeyError))
            && (e.result.Success? ==> e.local == after && e.session.records == s.records[local.id := after])
            && (e.result.Failure? ==>
                  && e.local == local && e.session.records == s.records
                  && OnColumns(before.columns, edit) == before.columns)
  {
    ColumnEditOutcome(s, local, edit, pause);
    CoherentRead(s, local.id);
    if Applies(s.records[local.id].columns, edit) {
      PatchedIs(s.records[local.id], local, edit);
    }
  }

  /** Tagging a column of a saved table: its entity becomes the given one, also when that is none, and
      no other column changes. */
  lemma EntityEdit(s: Session, local: TableRecord, column: string, entity: Option<nat>, pause: nat)
    requires s.Valid() && s.Coherent() && local.id in s.records
    ensures var before, e := s.records[local.id], Apply(s, local, AsEntity(column, entity), pause);
            && (e.result == if NamesColumn(before.columns, column) then Success(()) else Failure(KeyError))
            && e.session.records == s.records[local.id := e.session.records[local.id]]
            && var after := e.session.records[local.id];
            && |after.columns| == |before.columns|
            && (forall i :: 0 <= i < |before.columns| ==>
                  after.columns[i] == if before.columns[i].name == column then before.columns[i].(entityId := entity)
                                      else before.columns[i])
            && (e.result.Success? ==> after == e.local == WithColumns(before, local, after.columns))
            && (e.result.Failure? ==> after == before && e.local == local)
  {
    ColumnEditIs(s, local, AsEntity(column, entity), pause);
  }

  /** Setting a column's cleaning operations: refused as a whole when one of them would clean what an
      earlier one imputes; otherwise the list, even an empty one, takes the place of the old. */
  lemma CleaningEdit(s: Session, local: TableRecord, edit: Edit, pause: nat, accepted: bool)
    requires s.Valid() && s.Coherent() && local.id in s.records && edit.UpdateCriticalDataInfo?
    requires accepted == forall i, j :: 0 <= i < j < |edit.operations| ==>
                           !edit.operations[j].Check(edit.operations[i].imputed)
    ensures var before, e := s.records[local.id], Apply(s, local, edit, pause);
            && (e.result == if !accepted then Failure(ValueError)
                            else if NamesColumn(before.columns, edit.column) then Success(()) else Failure(KeyError))
            && e.session.records == s.records[local.id := e.session.records[local.id]]
            && var after := e.session.records[local.id];
            && |after.columns| == |before.columns|
            && (forall i :: 0 <= i < |before.columns| ==>
                  after.columns[i] == if accepted && before.columns[i].name == edit.column
                                      then before.columns[i].(criticalDataInfo := Some(edit.operations))
                                      else before.columns[i])
            && (e.result.Success? ==> after == e.local == WithColumns(before, local, after.columns))
            && (e.result.Failure? ==> after == before && e.local == local)
  {
    assert edit.Accepted() == accepted;
    ColumnEditIs(s, local, edit, pause);
  }

  /** The other two fields of a saved table: the named one is set, the rest is what the handle has. */
  lemma FieldEdits(s: Session, local: TableRecord, value: string, pause: nat)
    requires local.id in s.records
    ensures var before := s.records[local.id];
            var columns := if local.columns == [] then before.columns else local.columns;
            var e, f := Apply(s, local, UpdateRecordCreationTimestampColumn(value), pause),
                        Apply(s, local, UpdateDefaultFeatureJobSetting(value), pause);
            && e.result == f.result == Success(())
            && e.local == WithColumns(before, local, columns).(recordCreationTimestampColumn := Some(value))
            && f.local == WithColumns(before, local, columns).(defaultFeatureJobSetting := Some(value))
            && e.session.records == s.records[local.id := e.local]
            && f.session.records == s.records[local.id := f.local]
  {
  }

  lemma UnsavedColumnEdit(s: Session, local: TableRecord, edit: Edit, pause: nat)
    requires s.Valid() && s.Coherent() && local.id !in s.records && UniqueNames(local.columns)
    requires edit.IsColumnEdit() && edit.Accepted()
    ensures var e := Apply(s, local, edit, pause);
            e.session.records == s.records && e.local == local.(columns := OnColumns(local.columns, edit))
  {
    assert !s.Live(local.id);
    CoherentElapse(s, pause);
    assert !s.Elapse(pause).Live(local.id);
    if HasColumn(local.columns, edit.column) {
      ReplacedIsEdit(local.columns, edit);
    } else {
      assert OnColumns(local.columns, edit) == local.columns;
    }
  }

  /** Column edits of a table that is not saved change the handle alone, and there nothing but the one
      field of the one column. */
  lemma UnsavedColumnEdits(s: Session, local: TableRecord, column: string, entity: Option<nat>,
                           ops: seq<CleaningOperation>, pause: nat)
    requires s.Valid() && s.Coherent() && local.id !in s.records && UniqueNames(local.columns)
    requires ValidOperations(ops)
    ensures var tag := Apply(s, local, AsEntity(column, entity), pause);
            var clean := Apply(s, local, UpdateCriticalDataInfo(column, ops), pause);
            && tag.session.records == clean.session.records == s.records
            && tag.local == local.(columns := tag.local.columns)
            && clean.local == local.(columns := clean.local.columns)
            && |tag.local.columns| == |clean.local.columns| == |local.columns|
            && (forall i :: 0 <= i < |local.columns| ==>
                  var c := local.columns[i];
                  && tag.local.columns[i] == (if c.name == column then c.(entityId := entity) else c)
                  && clean.local.columns[i] == (if c.name == column then c.(criticalDataInfo := Some(ops)) else c))
  {
    UnsavedColumnEdit(s, local, AsEntity(column, entity), pause);
    UnsavedColumnEdit(s, local, UpdateCriticalDataInfo(column, ops), pause);
  }

  /** So do edits of the other two fields. */
  lemma UnsavedFieldEdits(s: Session, local: TableRecord, value: string, pause: nat)
    requires local.id !in s.records
    ensures var e, f := Apply(s, local, UpdateRecordCreationTimestampColumn(value), pause),
                        Apply(s, local, UpdateDefaultFeatureJobSetting(value), pause);
            && e.session == f.session == s
            && e.local == local.(recordCreationTimestampColumn := Some(value))
            && f.local == local.(defaultFeatureJobSetting := Some(value))
  {
  }

  /** A stored model is used for one second whatever happens on the server, and not a microsecond longer. */
  lemma CacheHoldsForOneSecond(s: Session, r: TableRecord, pause: nat, records: Records)
    ensures Read(s.Store(r).Elapse(pause).(records := records), r.id).0
            == if pause < 1_000_000 then Success(r)
               else if r.id in records then Success(records[r.id])
               else Failure(RecordRetrievalException)
  {
  }

  lemma {:induction false} RunSnoc(p: Process, steps: seq<Step>)
    requires steps != []
    ensures Run(p, steps) == Next(Run(p, steps[..|steps| - 1]), steps[|steps| - 1])
  {
    var n := |steps| - 1;
    RunAppends(p, steps[..n], [steps[n]]);
    RunOne(Run(p, steps[..n]), steps[n]);
    assert steps[..n] + [steps[n]] == steps;
  }

  lemma {:induction false} RunKeepsInv(p: Process, steps: seq<Step>, id: nat)
    requires Inv(p) && id in p.session.records
    ensures Inv(Run(p, steps)) && Run(p, steps).session.records.Keys == p.session.records.Keys
    decreases |steps|
  {
    if steps != [] {
      StepIsEdit(p, steps[0], id);
      RunKeepsInv(Next(p, steps[0]), steps[1..], id);
    }
  }

  /** The step is a column edit through a handle that is for table `id` at that moment. */
  predicate EditsTable(q: Process, step: Step, id: nat) {
    step.EditColumn? && step.handle in q.handles && q.handles[step.handle].id == id
  }

  predicate Tags(q: Process, step: Step, id: nat, name: string) {
    EditsTable(q, step, id) && step.edit.AsEntity? && step.edit.column == name
  }

  predicate Cleans(q: Process, step: Step, id: nat, name: string) {
    && EditsTable(q, step, id) && step.edit.UpdateCriticalDataInfo? && step.edit.column == name
    && ValidOperations(step.edit.operations)
  }

  /** One step on one column of table `id`. */
  lemma StepOnColumn(q: Process, step: Step, id: nat, i: nat)
    requires Inv(q) && id in q.session.records && i < |q.session.records[id].columns|
    ensures var q' := Next(q, step);
            && id in q'.session.records && i < |q'.session.records[id].columns|
            && var c, c' := q.session.records[id].columns[i], q'.session.records[id].columns[i];
            c' == c.(entityId := if Tags(q, step, id, c.name) then step.edit.entity else c.entityId,
                     criticalDataInfo := if Cleans(q, step, id, c.name) then Some(step.edit.operations)
                                         else c.criticalDataInfo)
  {
    StepIsEdit(q, step, id);
  }

  /** The last tagging of the column in the run, if there is one. */
  ghost predicate LastTag(p: Process, steps: seq<Step>, id: nat, name: string, k: nat) {
    && k < |steps| && Tags(Run(p, steps[..k]), steps[k], id, name)
    && forall l :: k < l < |steps| ==> !Tags(Run(p, steps[..l]), steps[l], id, name)
  }

  ghost predicate LastClean(p: Process, steps: seq<Step>, id: nat, name: string, k: nat) {
    && k < |steps| && Cleans(Run(p, steps[..k]), steps[k], id, name)
    && forall l :: k < l < |steps| ==> !Cleans(Run(p, steps[..l]), steps[l], id, name)
  }

  lemma LastTagStep(p: Process, steps: seq<Step>, id: nat, name: string, k: nat)
    requires steps != [] && LastTag(p, steps, id, name, k)
    ensures var n := |steps| - 1;
            if Tags(Run(p, steps[..n]), steps[n], id, name) then k == n else LastTag(p, steps[..n], id, name, k)
  {
    var n := |steps| - 1;
    if !Tags(Run(p, steps[..n]), steps[n], id, name) {
      assert forall l :: 0 <= l <= n ==> steps[..n][..l] == steps[..l];
    }
  }

  lemma LastCleanStep(p: Process, steps: seq<Step>, id: nat, name: string, k: nat)
    requires steps != [] && LastClean(p, steps, id, name, k)
    ensures var n := |steps| - 1;
            if Cleans(Run(p, steps[..n]), steps[n], id, name) then k == n else LastClean(p, steps[..n], id, name, k)
  {
    var n := |steps| - 1;
    if !Cleans(Run(p, steps[..n]), steps[n], id, name) {
      assert forall l :: 0 <= l <= n ==> steps[..n][..l] == steps[..l];
    }
  }

  /** The column as a run leaves it: name, type and semantic tag are as before. */
  ghost predicate SameColumn(c: ColumnInfo, c': ColumnInfo) {
    c' == c.(entityId := c'.entityId, criticalDataInfo := c'.criticalDataInfo)
  }

  lemma {:induction false} ColumnAfterRun(p: Process, steps: seq<Step>, id: nat, i: nat)
    requires Inv(p) && id in p.session.records && i < |p.session.records[id].columns|
    ensures var q := Run(p, steps);
            && id in q.session.records && |q.session.records[id].columns| == |p.session.records[id].columns|
            && SameColumn(p.session.records[id].columns[i], q.session.records[id].columns[i])
  {
    RunKeepsInv(p, steps, id);
    if steps != [] {
      var n := |steps| - 1;
      RunSnoc(p, steps);
      RunKeepsInv(p, steps[..n], id);
      ColumnAfterRun(p, steps[..n], id, i);
      StepOnColumn(Run(p, steps[..n]), steps[n], id, i);
      StepIsEdit(Run(p, steps[..n]), steps[n], id);
    }
  }

  /** `last` is what the last tagging gave, or `first` if there is none. */
  ghost predicate LastEntity(p: Process, steps: seq<Step>, id: nat, name: string, first: Option<nat>,
                             last: Option<nat>) {
    && (forall k: nat :: LastTag(p, steps, id, name, k) ==> last == steps[k].edit.entity)
    && ((forall k: nat :: k < |steps| ==> !Tags(Run(p, steps[..k]), steps[k], id, name)) ==> last == first)
  }

  ghost predicate LastOperations(p: Process, steps: seq<Step>, id: nat, name: string,
                                 first: Option<seq<CleaningOperation>>, last: Option<seq<CleaningOperation>>) {
    && (forall k: nat :: LastClean(p, steps, id, name, k) ==> last == Some(steps[k].edit.operations))
    && ((forall k: nat :: k < |steps| ==> !Cleans(Run(p, steps[..k]), steps[k], id, name)) ==> last == first)
  }

  lemma LastEntityStep(p: Process, steps: seq<Step>, id: nat, name: string, first: Option<nat>, before: Option<nat>)
    requires steps != [] && LastEntity(p, steps[..|steps| - 1], id, name, first, before)
    ensures var n := |steps| - 1;
            var tags := Tags(Run(p, steps[..n]), steps[n], id, name);
            LastEntity(p, steps, id, name, first, if tags then steps[n].edit.entity else before)
  {
    var n := |steps| - 1;
    if !Tags(Run(p, steps[..n]), steps[n], id, name) {
      forall k: nat | LastTag(p, steps, id, name, k) ensures before == steps[k].edit.entity {
        LastTagStep(p, steps, id, name, k);
      }
      if forall k: nat :: k < |steps| ==> !Tags(Run(p, steps[..k]), steps[k], id, name) {
        assert forall k: nat :: k < n ==> steps[..n][..k] == steps[..k] && steps[..n][k] == steps[k];
      }
    } else {
      forall k: nat | LastTag(p, steps, id, name, k) ensures k == n {
        LastTagStep(p, steps, id, name, k);
      }
      assert n < |steps| && Tags(Run(p, steps[..n]), steps[n], id, name);
    }
  }

  lemma LastOperationsStep(p: Process, steps: seq<Step>, id: nat, name: string,
                           first: Option<seq<CleaningOperation>>, before: Option<seq<CleaningOperation>>)
    requires steps != [] && LastOperations(p, steps[..|steps| - 1], id, name, first, before)
    ensures var n := |steps| - 1;
            var cleans := Cleans(Run(p, steps[..n]), steps[n], id, name);
            LastOperations(p, steps, id, name, first, if cleans then Some(steps[n].edit.operations) else before)
  {
    var n := |steps| - 1;
    if !Cleans(Run(p, steps[..n]), steps[n], id, name) {
      forall k: nat | LastClean(p, steps, id, name, k) ensures before == Some(steps[k].edit.operations) {
        LastCleanStep(p, steps, id, name, k);
      }
      if forall k: nat :: k < |steps| ==> !Cleans(Run(p, steps[..k]), steps[k], id, name) {
        assert forall k: nat :: k < n ==> steps[..n][..k] == steps[..k] && steps[..n][k] == steps[k];
      }
    } else {
      forall k: nat | LastClean(p, steps, id, name, k) ensures k == n {
        LastCleanStep(p, steps, id, name, k);
      }
      assert n < |steps| && Cleans(Run(p, steps[..n]), steps[n], id, name);
    }
  }

  /** The i-th column of table `id`. */
  function ColumnAt(q: Process, id: nat, i: nat): ColumnInfo
    requires id in q.session.records && i < |q.session.records[id].columns|
  {
    q.session.records[id].columns[i]
  }

  /** After any run a column's entity is that of the last edit that tagged it through a handle of the
      table, however stale, or the one it had at first; and its cleaning operations are those of the
      last accepted edit of them, or those it had at first. Nothing else of it changes. */
  lemma {:induction false} RunIsLastEdits(p: Process, steps: seq<Step>, id: nat, i: nat)
    requires Inv(p) && id in p.session.records && i < |p.session.records[id].columns|
    ensures var q, c := Run(p, steps), ColumnAt(p, id, i);
            && id in q.session.records && |q.session.records[id].columns| == |p.session.records[id].columns|
            && var c' := ColumnAt(q, id, i);
            && SameColumn(c, c')
            && LastEntity(p, steps, id, c.name, c.entityId, c'.entityId)
            && LastOperations(p, steps, id, c.name, c.criticalDataInfo, c'.criticalDataInfo)
  {
    ColumnAfterRun(p, steps, id, i);
    if steps != [] {
      var n, c := |steps| - 1, ColumnAt(p, id, i);
      RunIsLastEdits(p, steps[..n], id, i);
      RunSnoc(p, steps);
      RunKeepsInv(p, steps[..n], id);
      var q := Run(p, steps[..n]);
      StepOnColumn(q, steps[n], id, i);
      LastEntityStep(p, steps, id, c.name, c.entityId, ColumnAt(q, id, i).entityId);
      LastOperationsStep(p, steps, id, c.name, c.criticalDataInfo, ColumnAt(q, id, i).criticalDataInfo);
    }
  }
}
