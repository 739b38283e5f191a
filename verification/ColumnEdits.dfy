/** What survives of the edits made through table handles: no lost column edits in one process,
    which fields a stale handle reverts, and independence of the moment an object is saved. */
module ColumnEdits {
  import opened Wrappers
  import opened Tables
  import opened ApiObjects

  function OnColumns(columns: Columns, edit: Edit): (r: Columns)
    requires edit.IsColumnEdit()
  {
    seq(|columns|, i requires 0 <= i < |columns| =>
      if edit.Accepted() && columns[i].name == edit.column then edit.OnColumn(columns[i]) else columns[i])
  }

  /** What a user means by an edit: only the named column, only the edited field. */
  function OnRecord(r: TableRecord, edit: Edit): TableRecord {
    match edit
    case UpdateRecordCreationTimestampColumn(name) => r.(recordCreationTimestampColumn := Some(name))
    case UpdateDefaultFeatureJobSetting(setting) => r.(defaultFeatureJobSetting := Some(setting))
    case _ => r.(columns := OnColumns(r.columns, edit))
  }

  lemma InfoIsUnique(columns: Columns, i: nat)
    requires UniqueNames(columns) && i < |columns|
    ensures HasColumn(columns, columns[i].name) && InfoOf(columns, columns[i].name) == columns[i]
  {
    var c := InfoOf(columns, columns[i].name);
    var j :| 0 <= j < |columns| && columns[j] == c;
    assert j == i;
  }

  /** Building the payload from the column itself is the edit of that one column. */
  lemma ReplacedIsEdit(columns: Columns, edit: Edit)
    requires UniqueNames(columns) && edit.IsColumnEdit() && edit.Accepted() && HasColumn(columns, edit.column)
    ensures Replaced(columns, edit.OnColumn(InfoOf(columns, edit.column))) == OnColumns(columns, edit)
  {
    forall i | 0 <= i < |columns|
      ensures columns[i].name == edit.column ==> InfoOf(columns, edit.column) == columns[i]
    {
      InfoIsUnique(columns, i);
    }
  }

  /** A read in a coherent session returns the server's record and keeps the session coherent. */
  lemma CoherentRead(s: Session, id: nat)
    requires s.Valid() && s.Coherent()
    ensures var (r, s') := Read(s, id);
            && (r == if id in s.records then Success(s.records[id]) else Failure(RecordRetrievalException))
            && s'.Valid() && s'.Coherent() && s'.records == s.records
  {
  }

  lemma CoherentElapse(s: Session, pause: nat)
    requires s.Valid() && s.Coherent()
    ensures s.Elapse(pause).Valid() && s.Elapse(pause).Coherent()
  {
    forall id | id in s.cache && s.Elapse(pause).Live(id) ensures s.Live(id) {}
  }

  /** `update` stores its own answer, so it keeps the session coherent. */
  lemma CoherentUpdate(s: Session, local: TableRecord, change: Payload)
    requires s.Valid() && s.Coherent()
    requires UniqueNames(FullPayload(local, change).columns.value)
    ensures var e := Update(s, local, change);
            && e.session.Valid() && e.session.Coherent() && e.local.id == local.id
  {
  }

  /** A column edit that names a column of the saved table, in a coherent session. */
  predicate Applies(columns: Columns, edit: Edit) {
    edit.IsColumnEdit() && edit.Accepted() && HasColumn(columns, edit.column)
  }

  function PatchedColumns(r: TableRecord, local: TableRecord, edit: Edit): TableRecord
    requires edit.IsColumnEdit()
  {
    Patched(r, FullPayload(local, ColumnsPayload(OnColumns(r.columns, edit))))
  }

  lemma PatchedIsEdited(r: TableRecord, local: TableRecord, edit: Edit)
    requires Applies(r.columns, edit) && UniqueNames(r.columns)
    ensures var after := PatchedColumns(r, local, edit);
            after.id == r.id && after.columns == OnColumns(r.columns, edit) && UniqueNames(after.columns)
  {
    assert |OnColumns(r.columns, edit)| == |r.columns| > 0;
  }

  lemma ColumnEditOutcome(s: Session, local: TableRecord, edit: Edit, pause: nat)
    requires s.Valid() && s.Coherent() && local.id in s.records && edit.IsColumnEdit()
    ensures var e, r := Apply(s, local, edit, pause), s.records[local.id];
            && e.session.Valid() && e.session.Coherent()
            && (Applies(r.columns, edit) ==>
                  && e.local == PatchedColumns(r, local, edit)
                  && e.session.records == s.records[local.id := e.local])
            && (!Applies(r.columns, edit) ==>
                  && e.local == local && e.session.records == s.records
                  && OnColumns(r.columns, edit) == r.columns)
  {
    var r := s.records[local.id];
    if edit.Accepted() {
      var (columns, s1) := ColumnsInfo(s, local);
      CoherentRead(s, local.id);
      if HasColumn(columns, edit.column) {
        CoherentElapse(s1, pause);
        var (columns', s2) := ColumnsInfo(s1.Elapse(pause), local);
        CoherentRead(s1.Elapse(pause), local.id);
        ReplacedIsEdit(r.columns, edit);
        CoherentUpdate(s2, local, ColumnsPayload(OnColumns(r.columns, edit)));
      }
    }
  }

  /** One edit through one handle of a saved table, whatever the handle's local copy holds. */
  lemma EditOnServer(s: Session, local: TableRecord, edit: Edit, pause: nat)
    requires s.Valid() && s.Coherent() && local.id in s.records && UniqueNames(local.columns)
    requires edit.IsColumnEdit()
    ensures var e := Apply(s, local, edit, pause);
            && e.session.Valid() && e.session.Coherent() && e.local.id == local.id && UniqueNames(e.local.columns)
            && e.session.records.Keys == s.records.Keys
            && e.session.records[local.id].columns == OnColumns(s.records[local.id].columns, edit)
            && (forall id <- s.records :: id != local.id ==> e.session.records[id] == s.records[id])
  {
    var r := s.records[local.id];
    ColumnEditOutcome(s, local, edit, pause);
    if Applies(r.columns, edit) { PatchedIsEdited(r, local, edit); }
  }

  /** One process: any number of handles on any number of tables share the cache. */
  datatype Process = Process(session: Session, handles: map<nat, TableRecord>)

  datatype Step =
    | EditColumn(handle: nat, edit: Edit, pause: nat)
    | Open(handle: nat, id: nat)
    | ReadModel(id: nat)
    | Wait(pause: nat)
    | Evict(id: nat)

  function Next(p: Process, step: Step): Process {
    match step
    case EditColumn(h, edit, pause) =>
      if h !in p.handles || !edit.IsColumnEdit() then p
      else
        var e := Apply(p.session, p.handles[h], edit, pause);
        Process(e.session, p.handles[h := e.local])
    case Open(h, id) =>
      var (r, s) := Fetch(p.session, id);
      if r.Success? then Process(s, p.handles[h := r.value]) else p
    case ReadModel(id) => p.(session := Read(p.session, id).1)
    case Wait(pause) => p.(session := p.session.Elapse(pause))
    case Evict(id) => p.(session := p.session.(cache := p.session.cache - {id}))
  }

  function Run(p: Process, steps: seq<Step>): Process
    decreases |steps|
  {
    if steps == [] then p else Run(Next(p, steps[0]), steps[1..])
  }

  lemma {:induction false} RunAppends(p: Process, a: seq<Step>, b: seq<Step>)
    ensures Run(p, a + b) == Run(Run(p, a), b)
    decreases |a|
  {
    if a == [] {
      assert a + b == b;
    } else {
      assert (a + b)[1..] == a[1..] + b;
      RunAppends(Next(p, a[0]), a[1..], b);
    }
  }

  lemma RunOne(p: Process, step: Step)
    ensures Run(p, [step]) == Next(p, step)
  {
    assert [step][1..] == [];
  }

  /** A read that fails leaves nothing behind. */
  function ReadSteps(id: nat, outage: bool): seq<Step> {
    if outage then [] else [ReadModel(id)]
  }

  lemma ReadStepsRun(p: Process, local: TableRecord, outage: bool)
    ensures Run(p, ReadSteps(local.id, outage)) == p.(session := ColumnsUnder(p.session, local, outage).1)
  {
    RunOne(p, ReadModel(local.id));
  }

  /** Reading twice with a pause between. */
  lemma TwoReadsRun(p: Process, local: TableRecord, pause: nat, o: Outages)
    ensures var first, second := ReadSteps(local.id, o.first), ReadSteps(local.id, o.second);
            var s1 := ColumnsUnder(p.session, local, o.first).1;
            Run(p, first + ([Wait(pause)] + second))
            == p.(session := ColumnsUnder(s1.Elapse(pause), local, o.second).1)
  {
    var first, second := ReadSteps(local.id, o.first), ReadSteps(local.id, o.second);
    var s1 := ColumnsUnder(p.session, local, o.first).1;
    var p1, p2 := p.(session := s1), p.(session := s1.Elapse(pause));
    RunAppends(p, first, [Wait(pause)] + second);
    ReadStepsRun(p, local, o.first);
    RunAppends(p1, [Wait(pause)], second);
    RunOne(p1, Wait(pause));
    assert Next(p1, Wait(pause)) == p2;
    ReadStepsRun(p2, local, o.second);
  }

  /** The reads of an edit, as steps of the process. */
  function FailedSteps(s: Session, local: TableRecord, edit: Edit, pause: nat, o: Outages): seq<Step>
    requires edit.IsColumnEdit()
  {
    var first, second := ReadSteps(local.id, o.first), ReadSteps(local.id, o.second);
    if !edit.Accepted() then []
    else if HasColumn(ColumnsUnder(s, local, o.first).0, edit.column) then first + ([Wait(pause)] + second)
    else first
  }

  /** An edit whose PATCH fails is the run of its reads, so what holds of runs covers it. */
  lemma FailedEditIsReads(p: Process, local: TableRecord, edit: Edit, pause: nat, o: Outages)
    requires edit.IsColumnEdit()
    ensures Run(p, FailedSteps(p.session, local, edit, pause, o))
            == p.(session := AfterReads(p.session, local, edit, pause, o))
  {
    TwoReadsRun(p, local, pause, o);
    ReadStepsRun(p, local, o.first);
  }

  /** Handles of saved tables; their local copies may be stale. */
  predicate Inv(p: Process) {
    && p.session.Valid() && p.session.Coherent()
    && forall h <- p.handles :: p.handles[h].id in p.session.records && UniqueNames(p.handles[h].columns)
  }

  /** Which table each handle is for. */
  function Owners(p: Process): map<nat, nat> {
    map h <- p.handles :: p.handles[h].id
  }

  function NextOwners(owners: map<nat, nat>, tables: set<nat>, step: Step): map<nat, nat> {
    if step.Open? && step.id in tables then owners[step.handle := step.id] else owners
  }

  predicate Edits(owners: map<nat, nat>, step: Step, id: nat) {
    step.EditColumn? && step.edit.IsColumnEdit() && step.handle in owners && owners[step.handle] == id
  }

  /** The effect the steps should have on the columns of table `id`: the edits made through its
      handles, in call order. No cache, no clock and no local copy is involved. */
  function Folded(columns: Columns, owners: map<nat, nat>, tables: set<nat>, steps: seq<Step>, id: nat): Columns
    decreases |steps|
  {
    if steps == [] then columns
    else
      var columns' := if Edits(owners, steps[0], id) then OnColumns(columns, steps[0].edit) else columns;
      Folded(columns', NextOwners(owners, tables, steps[0]), tables, steps[1..], id)
  }

  ghost predicate IsEdit(p: Process, step: Step, id: nat)
    requires id in p.session.records
  {
    var p', columns := Next(p, step), p.session.records[id].columns;
    && Inv(p') && p'.session.records.Keys == p.session.records.Keys
    && Owners(p') == NextOwners(Owners(p), p.session.records.Keys, step)
    && p'.session.records[id].columns
       == if Edits(Owners(p), step, id) then OnColumns(columns, step.edit) else columns
  }

  /** Giving a handle new local fields keeps what `Inv` says about handles. */
  lemma SetHandle(p: Process, s: Session, h: nat, local: TableRecord)
    requires Inv(p) && s.Valid() && s.Coherent() && s.records.Keys == p.session.records.Keys
    requires local.id in s.records && UniqueNames(local.columns)
    ensures Inv(Process(s, p.handles[h := local]))
    ensures Owners(Process(s, p.handles[h := local])) == Owners(p)[h := local.id]
  {
  }

  lemma EditStepIsEdit(p: Process, step: Step, id: nat)
    requires Inv(p) && id in p.session.records && step.EditColumn?
    ensures IsEdit(p, step, id)
  {
    if step.handle in p.handles && step.edit.IsColumnEdit() {
      var local := p.handles[step.handle];
      EditOnServer(p.session, local, step.edit, step.pause);
      var e := Apply(p.session, local, step.edit, step.pause);
      SetHandle(p, e.session, step.handle, e.local);
      assert Owners(p)[step.handle := local.id] == Owners(p);
    }
  }

  lemma OpenStepIsEdit(p: Process, step: Step, id: nat)
    requires Inv(p) && id in p.session.records && step.Open?
    ensures IsEdit(p, step, id)
  {
    CoherentRead(p.session, step.id);
    if step.id in p.session.records {
      var s := Fetch(p.session, step.id).1;
      assert s.Valid() && s.Coherent();
      SetHandle(p, s, step.handle, p.session.records[step.id]);
    }
  }

  lemma StepIsEdit(p: Process, step: Step, id: nat)
    requires Inv(p) && id in p.session.records
    ensures IsEdit(p, step, id)
  {
    match step
    case EditColumn(_, _, _) => EditStepIsEdit(p, step, id);
    case Open(_, _) => OpenStepIsEdit(p, step, id);
    case ReadModel(i) => CoherentRead(p.session, i);
    case Wait(pause) => CoherentElapse(p.session, pause);
    case Evict(i) =>
      var p' := Next(p, step);
      forall k | k in p'.session.cache && p'.session.Live(k) ensures p.session.Live(k) {}
  }

  /** No lost column edits: after any interleaving of edits through any handles with reads, pauses
      and evictions, the server's columns are the fold of the edits in call order. */
  lemma {:induction false} NoLostColumnEdits(p: Process, steps: seq<Step>, id: nat)
    requires Inv(p) && id in p.session.records
    ensures id in Run(p, steps).session.records
    ensures Run(p, steps).session.records[id].columns
            == Folded(p.session.records[id].columns, Owners(p), p.session.records.Keys, steps, id)
    decreases |steps|
  {
    if steps != [] {
      StepIsEdit(p, steps[0], id);
      NoLostColumnEdits(Next(p, steps[0]), steps[1..], id);
    }
  }

  /** An update of another field sends the handle's own copy of everything else: exactly when that
      copy is empty or current do the columns and the other field keep the server's values. */
  lemma StaleHandleIff(s: Session, local: TableRecord, name: string)
    requires local.id in s.records
    ensures var before := s.records[local.id];
            var after := Apply(s, local, UpdateRecordCreationTimestampColumn(name), 0).session.records[local.id];
            && (after.columns == before.columns <==> local.columns in {[], before.columns})
            && (after.defaultFeatureJobSetting == before.defaultFeatureJobSetting
                <==> local.defaultFeatureJobSetting in {None, before.defaultFeatureJobSetting})
            && after.recordCreationTimestampColumn == Some(name)
  {
  }

  /** The same for a column edit: it reverts a field that another handle has changed since. */
  lemma StaleFieldsIff(s: Session, local: TableRecord, edit: Edit, pause: nat)
    requires s.Valid() && s.Coherent() && local.id in s.records
    requires Applies(s.records[local.id].columns, edit)
    ensures var before := s.records[local.id];
            var after := Apply(s, local, edit, pause).session.records[local.id];
            && (after.recordCreationTimestampColumn == before.recordCreationTimestampColumn
                <==> local.recordCreationTimestampColumn in {None, before.recordCreationTimestampColumn})
            && (after.defaultFeatureJobSetting == before.defaultFeatureJobSetting
                <==> local.defaultFeatureJobSetting in {None, before.defaultFeatureJobSetting})
  {
    ColumnEditOutcome(s, local, edit, pause);
  }

  /** An update of the job setting puts the handle's own columns in the place of the server's. */
  lemma LocalColumnsWin(s: Session, local: TableRecord, setting: string)
    requires local.id in s.records && local.columns != []
    ensures var after := Apply(s, local, UpdateDefaultFeatureJobSetting(setting), 0).session.records;
            local.id in after && after[local.id].columns == local.columns
  {
  }

  /** Two handles opened on one table: an update of the job setting through the second takes back
      whatever column edit was made through the first. */
  lemma StaleHandleLosesEdit(s: Session, id: nat, edit: Edit, pause: nat, setting: string)
    requires s.Valid() && s.Coherent() && id in s.records && edit.IsColumnEdit()
    requires OnColumns(s.records[id].columns, edit) != s.records[id].columns
    ensures var original := s.records[id];
            var edited := Apply(s, original, edit, pause).session;
            var final := Apply(edited, original, UpdateDefaultFeatureJobSetting(setting), 0).session;
            edited.records[id].columns != original.columns && final.records[id].columns == original.columns
  {
    var original := s.records[id];
    EditOnServer(s, original, edit, pause);
    var edited := Apply(s, original, edit, pause).session;
    assert original.columns != [];
    LocalColumnsWin(edited, original, setting);
  }
}
