/** Column edits of one process while GET requests may fail: a failed read puts the handle's own columns
    in the place of the server's (featurebyte/api/base_table.py, featurebyte/api/api_object_util.py). */
module FailingReads {
  import opened Wrappers
  import opened Tables
  import opened ApiObjects
  import opened ColumnEdits
  import opened ConcurrentEdits

  /** A step of the process, or a column edit of which reads may fall into an outage. */
  datatype Turn = Served(step: Step) | Unserved(handle: nat, edit: Edit, pause: nat, outages: Outages)

  function AsStep(t: Turn): Step {
    if t.Served? then t.step else EditColumn(t.handle, t.edit, t.pause)
  }

  function Take(p: Process, t: Turn): Process {
    match t
    case Served(step) => Next(p, step)
    case Unserved(h, edit, pause, o) =>
      if h !in p.handles || !edit.IsColumnEdit() then p
      else
        var e := ApplyUnder(p.session, p.handles[h], edit, pause, o);
        Process(e.session, p.handles[h := e.local])
  }

  function After(p: Process, turns: seq<Turn>): Process {
    if turns == [] then p else Take(After(p, turns[..|turns| - 1]), turns[|turns| - 1])
  }

  /** A read returns the server's columns, or the handle's own when it fails and no entry is live. */
  lemma ReadUnderOutage(s: Session, local: TableRecord, outage: bool)
    requires s.Valid() && s.Coherent() && local.id in s.records
    ensures var (columns, s') := ColumnsUnder(s, local, outage);
            && columns == (if outage && !s.Live(local.id) then local.columns else s.records[local.id].columns)
            && s'.Valid() && s'.Coherent() && s'.records == s.records
  {
    CoherentRead(s, local.id);
  }

  lemma ReplacedKeepsNames(columns: Columns, info: ColumnInfo)
    requires UniqueNames(columns)
    ensures UniqueNames(Replaced(columns, info))
  {
    assert forall i :: 0 <= i < |columns| ==> Replaced(columns, info)[i].name == columns[i].name;
  }

  /** Each list an edit reads is the server's, or the handle's where that read fails and no entry is live;
      reading changes no record. */
  lemma EditReadsAre(s: Session, local: TableRecord, edit: Edit, pause: nat, o: Outages)
    requires s.Valid() && s.Coherent() && local.id in s.records && edit.IsColumnEdit()
    ensures var (lists, s') := EditReads(s, local, edit, pause, o);
            && s'.Valid() && s'.Coherent() && s'.records == s.records
            && (lists.Some? ==>
                  var server := s.records[local.id].columns;
                  && lists.value.0 == (if o.first && !s.Live(local.id) then local.columns else server)
                  && HasColumn(lists.value.0, edit.column)
                  && lists.value.1 in {local.columns, server} && (!o.second ==> lists.value.1 == server))
  {
    ReadUnderOutage(s, local, o.first);
    var s1 := ColumnsUnder(s, local, o.first).1;
    CoherentElapse(s1, pause);
    ReadUnderOutage(s1.Elapse(pause), local, o.second);
  }

  lemma UnservedKeepsCoherent(s: Session, local: TableRecord, edit: Edit, pause: nat, o: Outages)
    requires s.Valid() && s.Coherent() && local.id in s.records && UniqueNames(local.columns) && edit.IsColumnEdit()
    ensures var e := ApplyUnder(s, local, edit, pause, o);
            && e.session.Valid() && e.session.Coherent() && e.local.id == local.id && UniqueNames(e.local.columns)
            && e.session.records.Keys == s.records.Keys
            && (forall id <- s.records :: id != local.id ==> e.session.records[id] == s.records[id])
  {
    EditReadsAre(s, local, edit, pause, o);
    var (lists, s') := EditReads(s, local, edit, pause, o);
    if edit.Accepted() && lists.Some? {
      ReplacedKeepsNames(lists.value.1, edit.OnColumn(InfoOf(lists.value.0, edit.column)));
      var change := EditPayload(lists.value.0, lists.value.1, edit);
      CoherentUpdate(s', local, change);
      assert Update(s', local, change).local.columns in {change.columns.value, s.records[local.id].columns};
    }
  }

  /** What was read fits what the server holds: outside the edited field the lists agree; where nothing
      is sent the edit had nothing to change. */
  predicate ReadsFit(before: Columns, lists: Option<(Columns, Columns)>, edit: Edit)
    requires edit.IsColumnEdit() && (lists.Some? ==> HasColumn(lists.value.0, edit.column))
  {
    if lists.None? || lists.value.1 == [] then OnColumns(before, edit) == before
    else Blank(AsRead(lists.value.0, lists.value.1, edit), edit) == Blank(before, edit)
  }

  /** One edit: the server's columns change as the user means exactly when what was read fits. */
  lemma UnservedMeetsIff(s: Session, local: TableRecord, edit: Edit, pause: nat, o: Outages)
    requires s.Valid() && s.Coherent() && local.id in s.records && edit.IsColumnEdit() && edit.Accepted()
    ensures var before, lists := s.records[local.id].columns, EditReads(s, local, edit, pause, o).0;
            && (lists.Some? ==> HasColumn(lists.value.0, edit.column))
            && (ApplyUnder(s, local, edit, pause, o).session.records[local.id].columns == OnColumns(before, edit)
                <==> ReadsFit(before, lists, edit))
  {
    EditReadsAre(s, local, edit, pause, o);
    var lists := EditReads(s, local, edit, pause, o).0;
    if lists.Some? {
      PayloadIsEdit(lists.value.0, lists.value.1, edit);
      SameOutsideIff(AsRead(lists.value.0, lists.value.1, edit), s.records[local.id].columns, edit);
    }
  }

  function OwnersAfter(p: Process, turns: seq<Turn>): map<nat, nat> {
    if turns == [] then Owners(p)
    else
      var n := |turns| - 1;
      NextOwners(OwnersAfter(p, turns[..n]), p.session.records.Keys, AsStep(turns[n]))
  }

  /** The columns the edits of table `id` mean, in call order. */
  function Meant(p: Process, turns: seq<Turn>, id: nat): Columns
    requires id in p.session.records
  {
    if turns == [] then p.session.records[id].columns
    else
      var n := |turns| - 1;
      var before := Meant(p, turns[..n], id);
      if Edits(OwnersAfter(p, turns[..n]), AsStep(turns[n]), id) then OnColumns(before, AsStep(turns[n]).edit)
      else before
  }

  /** The turn changes the columns of table `id` as it means to. */
  predicate Meets(p: Process, t: Turn, id: nat)
    requires id in p.session.records && id in Take(p, t).session.records
  {
    var before := p.session.records[id].columns;
    Take(p, t).session.records[id].columns
    == if Edits(Owners(p), AsStep(t), id) then OnColumns(before, AsStep(t).edit) else before
  }

  /** The reads of an accepted edit of table `id` fit; any other turn has none to fit. */
  predicate Fits(p: Process, t: Turn, id: nat)
    requires Inv(p) && id in p.session.records
  {
    t.Unserved? && Edits(Owners(p), AsStep(t), id) && t.edit.Accepted() ==>
      var lists := EditReads(p.session, p.handles[t.handle], t.edit, t.pause, t.outages).0;
      ReadsFit(p.session.records[id].columns, lists, t.edit)
  }

  lemma UnservedTurn(p: Process, t: Turn, id: nat)
    requires Inv(p) && id in p.session.records && t.Unserved?
    ensures Inv(Take(p, t)) && Take(p, t).session.records.Keys == p.session.records.Keys
    ensures Owners(Take(p, t)) == Owners(p)
    ensures Meets(p, t, id) <==> Fits(p, t, id)
  {
    if t.handle in p.handles && t.edit.IsColumnEdit() {
      var local := p.handles[t.handle];
      UnservedKeepsCoherent(p.session, local, t.edit, t.pause, t.outages);
      var e := ApplyUnder(p.session, local, t.edit, t.pause, t.outages);
      SetHandle(p, e.session, t.handle, e.local);
      assert Owners(p)[t.handle := local.id] == Owners(p);
      if local.id == id {
        if t.edit.Accepted() {
          UnservedMeetsIff(p.session, local, t.edit, t.pause, t.outages);
        } else {
          assert OnColumns(p.session.records[id].columns, t.edit) == p.session.records[id].columns;
        }
      }
    }
  }

  lemma AnyTurn(p: Process, t: Turn, id: nat)
    requires Inv(p) && id in p.session.records
    ensures Inv(Take(p, t)) && Take(p, t).session.records.Keys == p.session.records.Keys
    ensures Owners(Take(p, t)) == NextOwners(Owners(p), p.session.records.Keys, AsStep(t))
    ensures Meets(p, t, id) <==> Fits(p, t, id)
  {
    if t.Served? {
      StepIsEdit(p, t.step, id);
    } else {
      UnservedTurn(p, t, id);
    }
  }

  lemma TurnKeepsInv(p: Process, t: Turn)
    requires Inv(p)
    ensures Inv(Take(p, t)) && Take(p, t).session.records.Keys == p.session.records.Keys
    ensures Owners(Take(p, t)) == NextOwners(Owners(p), p.session.records.Keys, AsStep(t))
  {
    if id :| id in p.session.records {
      AnyTurn(p, t, id);
    } else {
      assert p.handles.Keys == {};
      assert Owners(Take(p, t)) == NextOwners(Owners(p), p.session.records.Keys, AsStep(t));
    }
  }

  lemma {:induction false} TurnsKeepInv(p: Process, turns: seq<Turn>)
    requires Inv(p)
    ensures var p' := After(p, turns);
            Inv(p') && p'.session.records.Keys == p.session.records.Keys && Owners(p') == OwnersAfter(p, turns)
  {
    if turns != [] {
      var n := |turns| - 1;
      TurnsKeepInv(p, turns[..n]);
      var p' := After(p, turns[..n]);
      TurnKeepsInv(p', turns[n]);
    }
  }

  /** The server's columns of table `id` after the first k turns. */
  function ColumnsAt(p: Process, turns: seq<Turn>, k: nat, id: nat): Columns
    requires Inv(p) && id in p.session.records && k <= |turns|
  {
    TurnsKeepInv(p, turns[..k]);
    After(p, turns[..k]).session.records[id].columns
  }

  predicate FitsAt(p: Process, turns: seq<Turn>, k: nat, id: nat)
    requires Inv(p) && id in p.session.records && k < |turns|
  {
    TurnsKeepInv(p, turns[..k]);
    Fits(After(p, turns[..k]), turns[k], id)
  }

  lemma NextColumns(p: Process, turns: seq<Turn>, k: nat, id: nat)
    requires Inv(p) && id in p.session.records && k < |turns|
    requires ColumnsAt(p, turns, k, id) == Meant(p, turns[..k], id)
    ensures ColumnsAt(p, turns, k + 1, id) == Meant(p, turns[..k + 1], id) <==> FitsAt(p, turns, k, id)
  {
    TurnsKeepInv(p, turns[..k]);
    assert turns[..k + 1][..k] == turns[..k];
    AnyTurn(After(p, turns[..k]), turns[k], id);
  }

  lemma {:induction false} AllFit(p: Process, turns: seq<Turn>, k: nat, id: nat)
    requires Inv(p) && id in p.session.records && k <= |turns|
    requires forall j :: 0 <= j < k ==> FitsAt(p, turns, j, id)
    ensures ColumnsAt(p, turns, k, id) == Meant(p, turns[..k], id)
  {
    if k > 0 {
      AllFit(p, turns, k - 1, id);
      NextColumns(p, turns, k - 1, id);
    }
  }

  /** With failing reads: at every moment of a run the server's columns are the fold of the edits so far
      exactly when the reads of every edit fit what the server held. */
  lemma NoLostEditsIff(p: Process, turns: seq<Turn>, id: nat)
    requires Inv(p) && id in p.session.records
    ensures (forall k :: 0 <= k <= |turns| ==> ColumnsAt(p, turns, k, id) == Meant(p, turns[..k], id))
            <==> forall k :: 0 <= k < |turns| ==> FitsAt(p, turns, k, id)
  {
    if forall k :: 0 <= k < |turns| ==> FitsAt(p, turns, k, id) {
      forall k | 0 <= k <= |turns| ensures ColumnsAt(p, turns, k, id) == Meant(p, turns[..k], id) {
        AllFit(p, turns, k, id);
      }
    }
    if forall k :: 0 <= k <= |turns| ==> ColumnsAt(p, turns, k, id) == Meant(p, turns[..k], id) {
      forall k | 0 <= k < |turns| ensures FitsAt(p, turns, k, id) {
        assert ColumnsAt(p, turns, k + 1, id) == Meant(p, turns[..k + 1], id);
        NextColumns(p, turns, k, id);
      }
    }
  }

  /** A handle opened before another one's edit, and an edit through it while GET fails and no entry is
      live: the earlier edit is lost. */
  lemma OutageLosesEdit(s: Session, local: TableRecord, mine: Edit, theirs: Edit, pause: nat)
    requires s.Valid() && s.Coherent() && local.id in s.records && !s.Live(local.id) && UniqueNames(local.columns)
    requires Applies(local.columns, mine) && Applies(local.columns, theirs) && mine.column != theirs.column
    requires s.records[local.id].columns == OnColumns(local.columns, theirs) != local.columns
    ensures var after := ApplyUnder(s, local, mine, pause, Outages(true, true)).session.records[local.id].columns;
            && after == OnColumns(local.columns, mine)
            && after != OnColumns(s.records[local.id].columns, mine)
  {
    var before := local.columns;
    ReplacedIsEdit(before, mine);
    var i :| 0 <= i < |before| && OnColumns(before, theirs)[i] != before[i];
    assert before[i].name == theirs.column;
    assert OnColumns(before, mine)[i] == before[i];
    assert OnColumns(OnColumns(before, theirs), mine)[i] == OnColumns(before, theirs)[i];
  }
}
