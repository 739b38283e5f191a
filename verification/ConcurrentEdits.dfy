/** Column edits while other processes write to the same table: exactly when the read-modify-write of
    one process does what its user means (featurebyte/api/base_table.py, featurebyte/api/api_object.py). */
module ConcurrentEdits {
  import opened Wrappers
  import opened Tables
  import opened ApiObjects
  import opened ColumnEdits
  import C = CacheFreshness

  /** The columns without the field the edit is about. */
  function Blank(columns: Columns, edit: Edit): Columns
    requires edit.IsColumnEdit()
  {
    seq(|columns|, i requires 0 <= i < |columns| =>
      if columns[i].name != edit.column then columns[i]
      else if edit.AsEntity? then columns[i].(entityId := None)
      else columns[i].(criticalDataInfo := None))
  }

  lemma SameOutsideIff(a: Columns, b: Columns, edit: Edit)
    requires edit.IsColumnEdit() && edit.Accepted()
    ensures OnColumns(a, edit) == OnColumns(b, edit) <==> Blank(a, edit) == Blank(b, edit)
  {
    if Blank(a, edit) == Blank(b, edit) {
      forall i | 0 <= i < |a| ensures OnColumns(a, edit)[i] == OnColumns(b, edit)[i] {
        assert Blank(a, edit)[i] == Blank(b, edit)[i];
      }
    }
    if OnColumns(a, edit) == OnColumns(b, edit) {
      forall i | 0 <= i < |a| ensures Blank(a, edit)[i] == Blank(b, edit)[i] {
        assert OnColumns(a, edit)[i] == OnColumns(b, edit)[i];
      }
    }
  }

  /** The list as the edit read it: the later list with the column as it was read first. */
  function AsRead(columns: Columns, later: Columns, edit: Edit): Columns
    requires edit.IsColumnEdit() && HasColumn(columns, edit.column)
  {
    Replaced(later, InfoOf(columns, edit.column))
  }

  lemma PayloadIsEdit(columns: Columns, later: Columns, edit: Edit)
    requires edit.IsColumnEdit() && edit.Accepted() && HasColumn(columns, edit.column)
    ensures EditPayload(columns, later, edit).columns == Some(OnColumns(AsRead(columns, later, edit), edit))
  {
    assert Replaced(later, edit.OnColumn(InfoOf(columns, edit.column)))
           == OnColumns(AsRead(columns, later, edit), edit);
  }

  /** The PATCH of a column edit, whatever other processes did since its reads: the server's columns
      change as the user means exactly when what was read equals the server's outside the edited field.
      (A list read as empty is not sent.) */
  lemma EditMeetsServerIff(w: C.World, c: C.Client, local: TableRecord, columns: Columns, later: Columns, edit: Edit)
    requires local.id in w.records && edit.IsColumnEdit() && edit.Accepted() && HasColumn(columns, edit.column)
    ensures var before := w.records[local.id].columns;
            var patch := C.SendPatch(c, local, EditPayload(columns, later, edit));
            var after := C.Next(w, patch).records[local.id].columns;
            after == OnColumns(before, edit)
            <==> if later == [] then OnColumns(before, edit) == before
                 else Blank(AsRead(columns, later, edit), edit) == Blank(before, edit)
  {
    PayloadIsEdit(columns, later, edit);
    SameOutsideIff(AsRead(columns, later, edit), w.records[local.id].columns, edit);
  }

  /** Another process' edit that slips in between the reads and the PATCH is lost whenever it touches
      another column: the server ends up with the first edit alone. */
  lemma EditIsLost(w: C.World, c: C.Client, d: C.Client, local: TableRecord, mine: Edit, theirs: Edit)
    requires d != c && local.id in w.records && w.caches == map[] && UniqueNames(w.records[local.id].columns)
    requires Applies(w.records[local.id].columns, mine) && Applies(w.records[local.id].columns, theirs)
    requires mine.column != theirs.column
    requires OnColumns(w.records[local.id].columns, theirs) != w.records[local.id].columns
    ensures var before := w.records[local.id].columns;
            var read, read' := C.ReadModel(c, local.id), C.ReadModel(d, local.id);
            var patch := C.SendPatch(c, local, EditPayload(before, before, mine));
            var patch' := C.SendPatch(d, local, EditPayload(before, before, theirs));
            var after := C.Next(C.Next(C.Next(C.Next(w, read), read'), patch'), patch).records[local.id].columns;
            && Read(w.View(c), local.id).0 == Read(C.Next(w, read).View(d), local.id).0 == Success(w.records[local.id])
            && after == OnColumns(before, mine)
            && after != OnColumns(OnColumns(before, theirs), mine)
  {
    var before := w.records[local.id].columns;
    ReplacedIsEdit(before, mine);
    ReplacedIsEdit(before, theirs);
    var i :| 0 <= i < |before| && OnColumns(before, theirs)[i] != before[i];
    assert before[i].name == theirs.column;
    assert OnColumns(before, mine)[i] == before[i];
    assert OnColumns(OnColumns(before, theirs), mine)[i] == OnColumns(before, theirs)[i];
  }
}
