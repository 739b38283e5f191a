/** One handle from construction to its last edit: editing before or after `save` makes no
    difference, and a saved table edited through a single handle keeps every field's edits. */
module SavePoint {
  import opened Wrappers
  import opened Tables
  import opened ApiObjects
  import opened ColumnEdits

  datatype Move = Do(edit: Edit, pause: nat) | Idle(pause: nat) | Drop(id: nat)

  function Step(s: Session, local: TableRecord, m: Move): (Session, TableRecord) {
    match m
    case Do(edit, pause) => var e := Apply(s, local, edit, pause); (e.session, e.local)
    case Idle(pause) => (s.Elapse(pause), local)
    case Drop(id) => (s.(cache := s.cache - {id}), local)
  }

  function Moves(s: Session, local: TableRecord, moves: seq<Move>): (Session, TableRecord)
    decreases |moves|
  {
    if moves == [] then (s, local)
    else
      var (s', local') := Step(s, local, moves[0]);
      Moves(s', local', moves[1..])
  }

  /** The meaning of the edits alone, on a record. */
  function Meaning(r: TableRecord, moves: seq<Move>): TableRecord
    decreases |moves|
  {
    if moves == [] then r
    else Meaning(if moves[0].Do? then OnRecord(r, moves[0].edit) else r, moves[1..])
  }

  ghost predicate Unsaved(s: Session, local: TableRecord) {
    s.Valid() && s.Coherent() && UniqueNames(local.columns) && !Conflict(s.records, local)
  }

  /** The handle's local copy is the server's record. */
  predicate Current(s: Session, local: TableRecord) {
    s.Valid() && s.Coherent() && local.id in s.records && local == s.records[local.id]
  }

  lemma NoConflictNotSaved(s: Session, local: TableRecord)
    requires s.Valid() && !Conflict(s.records, local)
    ensures local.id !in s.records
  {
    if local.id in s.records {
      assert Conflicts(s.records[local.id], local);
    }
  }

  lemma CoherentDrop(s: Session, id: nat)
    requires s.Valid() && s.Coherent()
    ensures s.(cache := s.cache - {id}).Valid() && s.(cache := s.cache - {id}).Coherent()
  {
    forall k | k in s.cache - {id} && s.(cache := s.cache - {id}).Live(k) ensures s.Live(k) {}
  }

  /** Conflicts depend on identity, name and source, which no edit touches. */
  lemma SameConflict(records: Records, a: TableRecord, b: TableRecord)
    requires a.id == b.id && a.name == b.name && a.source == b.source
    ensures Conflict(records, a) <==> Conflict(records, b)
  {
    assert forall id <- records :: Conflicts(records[id], a) <==> Conflicts(records[id], b);
  }

  lemma ColumnEditUnsaved(s: Session, local: TableRecord, edit: Edit, pause: nat)
    requires s.Valid() && s.Coherent() && UniqueNames(local.columns) && local.id !in s.records && edit.IsColumnEdit()
    ensures var e := Apply(s, local, edit, pause);
            && e.session.Valid() && e.session.Coherent() && e.session.records == s.records
            && e.local == OnRecord(local, edit)
  {
    assert !s.Live(local.id);
    CoherentElapse(s, pause);
    assert !s.Elapse(pause).Live(local.id);
    if Applies(local.columns, edit) {
      ReplacedIsEdit(local.columns, edit);
    } else {
      assert OnColumns(local.columns, edit) == local.columns;
    }
  }

  /** Before the save an edit changes the local copy as it would change the record. */
  lemma EditUnsaved(s: Session, local: TableRecord, edit: Edit, pause: nat)
    requires Unsaved(s, local)
    ensures var e := Apply(s, local, edit, pause);
            Unsaved(e.session, e.local) && e.session.records == s.records && e.local == OnRecord(local, edit)
  {
    NoConflictNotSaved(s, local);
    if edit.IsColumnEdit() {
      ColumnEditUnsaved(s, local, edit, pause);
    }
    SameConflict(s.records, local, OnRecord(local, edit));
  }

  lemma CurrentIsPatched(r: TableRecord, edit: Edit)
    requires Applies(r.columns, edit)
    ensures PatchedColumns(r, r, edit) == OnRecord(r, edit)
  {
    assert |OnColumns(r.columns, edit)| == |r.columns| > 0;
  }

  /** After it, an edit through a current handle changes the record, and the handle stays current. */
  lemma EditCurrent(s: Session, local: TableRecord, edit: Edit, pause: nat)
    requires Current(s, local)
    ensures var e := Apply(s, local, edit, pause);
            Current(e.session, e.local) && e.local == OnRecord(local, edit)
  {
    if edit.IsColumnEdit() {
      ColumnEditOutcome(s, local, edit, pause);
      if Applies(local.columns, edit) { CurrentIsPatched(local, edit); }
    }
  }

  lemma {:induction false} MovesUnsaved(s: Session, local: TableRecord, moves: seq<Move>)
    requires Unsaved(s, local)
    ensures var (s', local') := Moves(s, local, moves);
            Unsaved(s', local') && s'.records == s.records && local' == Meaning(local, moves)
    decreases |moves|
  {
    if moves != [] {
      var m := moves[0];
      match m {
        case Do(edit, pause) => EditUnsaved(s, local, edit, pause);
        case Idle(pause) => CoherentElapse(s, pause);
        case Drop(id) => CoherentDrop(s, id);
      }
      var (s', local') := Step(s, local, m);
      MovesUnsaved(s', local', moves[1..]);
    }
  }

  /** Through a single handle no edit of any field is lost. */
  lemma {:induction false} SingleHandleKeepsEverything(s: Session, local: TableRecord, moves: seq<Move>)
    requires Current(s, local)
    ensures var (s', local') := Moves(s, local, moves);
            Current(s', local') && local' == Meaning(local, moves)
    decreases |moves|
  {
    if moves != [] {
      var m := moves[0];
      match m {
        case Do(edit, pause) => EditCurrent(s, local, edit, pause);
        case Idle(pause) => CoherentElapse(s, pause);
        case Drop(id) => CoherentDrop(s, id);
      }
      var (s', local') := Step(s, local, m);
      SingleHandleKeepsEverything(s', local', moves[1..]);
    }
  }

  lemma SaveMakesCurrent(s: Session, local: TableRecord, resolution: ConflictResolution)
    requires Unsaved(s, local)
    ensures var e := Save(s, local, resolution);
            e.result == Success(()) && Current(e.session, e.local) && e.local == Tagged(local)
  {
    NoConflictNotSaved(s, local);
  }

  /** The tags of a new table and an edit touch different fields. */
  lemma TagCommutes(r: TableRecord, edit: Edit)
    ensures Tagged(OnRecord(r, edit)) == OnRecord(Tagged(r), edit)
  {
    assert Tagged(OnRecord(r, edit)).columns == OnRecord(Tagged(r), edit).columns;
  }

  lemma {:induction false} TagCommutesWithMeaning(r: TableRecord, moves: seq<Move>)
    ensures Tagged(Meaning(r, moves)) == Meaning(Tagged(r), moves)
    decreases |moves|
  {
    if moves != [] {
      if moves[0].Do? {
        TagCommutes(r, moves[0].edit);
        TagCommutesWithMeaning(OnRecord(r, moves[0].edit), moves[1..]);
      } else {
        TagCommutesWithMeaning(r, moves[1..]);
      }
    }
  }

  lemma {:induction false} MeaningAppends(r: TableRecord, a: seq<Move>, b: seq<Move>)
    ensures Meaning(r, a + b) == Meaning(Meaning(r, a), b)
    decreases |a|
  {
    if a == [] {
      assert a + b == b;
    } else {
      assert (a + b)[1..] == a[1..] + b;
      MeaningAppends(if a[0].Do? then OnRecord(r, a[0].edit) else r, a[1..], b);
    }
  }

  lemma {:induction false} MeaningKeepsId(r: TableRecord, moves: seq<Move>)
    ensures Meaning(r, moves).id == r.id
    decreases |moves|
  {
    if moves != [] {
      MeaningKeepsId(if moves[0].Do? then OnRecord(r, moves[0].edit) else r, moves[1..]);
    }
  }

  /** The first `k` moves on the unsaved handle, `save`, then the rest. */
  ghost function SavedAfter(s: Session, local: TableRecord, moves: seq<Move>, k: nat, resolution: ConflictResolution):
    (Result<()>, Session, TableRecord)
    requires k <= |moves|
  {
    var (s1, local1) := Moves(s, local, moves[..k]);
    var e := Save(s1, local1, resolution);
    var (s2, local2) := Moves(e.session, e.local, moves[k..]);
    (e.result, s2, local2)
  }

  lemma FromSaveOn(s: Session, local: TableRecord, rest: seq<Move>, resolution: ConflictResolution)
    requires Unsaved(s, local)
    ensures var e := Save(s, local, resolution);
            var (s', local') := Moves(e.session, e.local, rest);
            e.result == Success(()) && Current(s', local') && local' == Meaning(Tagged(local), rest)
  {
    SaveMakesCurrent(s, local, resolution);
    var e := Save(s, local, resolution);
    SingleHandleKeepsEverything(e.session, e.local, rest);
  }

  lemma MeaningSplits(local: TableRecord, moves: seq<Move>, k: nat)
    requires k <= |moves|
    ensures Meaning(Tagged(Meaning(local, moves[..k])), moves[k..]) == Meaning(Tagged(local), moves)
  {
    var before, rest := moves[..k], moves[k..];
    TagCommutesWithMeaning(local, before);
    MeaningAppends(Tagged(local), before, rest);
    assert before + rest == moves;
  }

  /** Wherever the save is inserted, the server ends up with the meaning of all the edits on the
      freshly tagged table: the right-hand side does not mention `k`. */
  lemma SavePointIndependence(s: Session, local: TableRecord, moves: seq<Move>, k: nat, resolution: ConflictResolution)
    requires Unsaved(s, local) && k <= |moves|
    ensures var (result, s', local') := SavedAfter(s, local, moves, k, resolution);
            && result == Success(())
            && local.id in s'.records && s'.records[local.id] == local' == Meaning(Tagged(local), moves)
  {
    MovesUnsaved(s, local, moves[..k]);
    var (s1, local1) := Moves(s, local, moves[..k]);
    FromSaveOn(s1, local1, moves[k..], resolution);
    MeaningSplits(local, moves, k);
    MeaningKeepsId(Tagged(local), moves);
  }
}
