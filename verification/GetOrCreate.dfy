/** Concurrent `get_or_create` and `save` with conflict resolution: any number of clients, every
    request an atomic step, in any interleaving (featurebyte/api/base_table.py,
    savable_api_object.py). */
module GetOrCreate {
  import opened Wrappers
  import opened Tables
  import ApiObjects

  /** Where a client stands: the next request it sends, or how its call ended. */
  datatype Phase =
    | Get            // get_or_create: GET by name
    | Check          // create: GET by name again
    | CheckSaved     // save: GET by id
    | PostRecord     // save: POST
    | GetExisting    // save, conflict to be resolved by retrieval: GET by name
    | Returned(id: nat)
    | Raised(error: Error)

  /** A call: the record it would create, whether its save retrieves on conflict, and its phase. */
  datatype Call = Call(record: TableRecord, retrieve: bool, phase: Phase) {
    /** A call of `get_or_create`, `create` or `save` that has sent nothing yet. */
    predicate Fresh() {
      phase.Get? || phase.Check? || phase.CheckSaved?
    }
    predicate Ended() {
      phase.Returned? || phase.Raised?
    }
    /** Requests still to be sent, at most. */
    function Remaining(): nat {
      match phase
      case Get => 5
      case Check => 4
      case CheckSaved => 3
      case PostRecord => 2
      case GetExisting => 1
      case _ => 0
    }
  }

  datatype State = State(records: Records, calls: seq<Call>)

  /** The answer to GET by name: some record with it; names are unique, so there is only one. */
  ghost predicate Found(records: Records, name: string, id: nat) {
    id in records && records[id].name == name
  }

  ghost predicate NotFound(records: Records, name: string) {
    forall id <- records :: records[id].name != name
  }

  /** One request of call `c`. */
  ghost predicate Request(s: State, c: Call, s': State, c': Call) {
    && s'.calls == s.calls
    && c' == c.(phase := c'.phase)
    && (!c.phase.PostRecord? ==> s'.records == s.records)
    && match c.phase
       case Get =>
         || (exists id :: Found(s.records, c.record.name, id) && c'.phase == Returned(id))
         || (NotFound(s.records, c.record.name) && c'.phase == Check)
       case Check =>
         || (!NotFound(s.records, c.record.name) && c'.phase == Raised(DuplicatedRecordException))
         || (NotFound(s.records, c.record.name) && c'.phase == CheckSaved)
       case CheckSaved =>
         c'.phase == if c.record.id in s.records && !c.retrieve then Raised(ObjectHasBeenSavedError) else PostRecord
       case PostRecord =>
         && s'.records == Post(s.records, c.record)
         && c'.phase == if !Conflict(s.records, c.record) then Returned(c.record.id)
                        else if c.retrieve then GetExisting
                        else Raised(DuplicatedRecordException)
       case GetExisting =>
         || (exists id :: Found(s.records, c.record.name, id) && c'.phase == Returned(id))
         || (NotFound(s.records, c.record.name) && c'.phase == Raised(RecordRetrievalException))
       case _ => false
  }

  ghost predicate Step(s: State, s': State) {
    exists k, c' :: 0 <= k < |s.calls|
      && Request(s, s.calls[k], State(s'.records, s.calls), c')
      && s'.calls == s.calls[k := c']
  }

  ghost predicate Run(states: seq<State>) {
    && states != []
    && ValidRecords(states[0].records) && UniqueTableNames(states[0].records)
    && (forall c <- states[0].calls :: UniqueNames(c.record.columns) && c.Fresh())
    && (forall i :: 0 <= i < |states| - 1 ==> Step(states[i], states[i + 1]))
  }

  /** A call that returned did so with a record of the name it asked for. */
  ghost predicate Inv(s: State) {
    && ValidRecords(s.records) && UniqueTableNames(s.records)
    && (forall c <- s.calls :: UniqueNames(c.record.columns))
    && (forall c <- s.calls :: c.phase.Returned? ==> Found(s.records, c.record.name, c.phase.id))
  }

  lemma PostKeepsValid(records: Records, r: TableRecord)
    requires ValidRecords(records) && UniqueTableNames(records) && UniqueNames(r.columns)
    ensures ValidRecords(Post(records, r)) && UniqueTableNames(Post(records, r))
    ensures forall id <- records :: id in Post(records, r) && Post(records, r)[id] == records[id]
  {
    if !Conflict(records, r) {
      assert r.id !in records by {
        if r.id in records { assert Conflicts(records[r.id], r); }
      }
      assert forall id <- records :: !Conflicts(records[id], r);
    }
  }

  lemma StepKeepsInv(s: State, s': State)
    requires Inv(s) && Step(s, s')
    ensures Inv(s') && |s'.calls| == |s.calls|
    ensures forall id <- s.records :: id in s'.records && s'.records[id] == s.records[id]
  {
    var k, c' :| 0 <= k < |s.calls|
      && Request(s, s.calls[k], State(s'.records, s.calls), c') && s'.calls == s.calls[k := c'];
    var c := s.calls[k];
    PostKeepsValid(s.records, c.record);
    forall d | d in s'.calls
      ensures UniqueNames(d.record.columns)
      ensures d.phase.Returned? ==> Found(s'.records, d.record.name, d.phase.id)
    {
      if d != c' { assert d in s.calls; }
    }
  }

  lemma {:induction false} InvAlways(states: seq<State>, i: nat)
    requires Run(states) && i < |states|
    ensures Inv(states[i]) && |states[i].calls| == |states[0].calls|
  {
    if i > 0 {
      InvAlways(states, i - 1);
      StepKeepsInv(states[i - 1], states[i]);
    }
  }

  /** No two tables that are not deprecated share a source. */
  predicate OneActiveTablePerSource(records: Records) {
    forall i <- records, j <- records ::
      i != j && !records[i].deprecated && !records[j].deprecated ==> records[i].source != records[j].source
  }

  lemma StepKeepsSources(s: State, s': State)
    requires Step(s, s') && OneActiveTablePerSource(s.records)
    ensures OneActiveTablePerSource(s'.records)
  {
    var k, c' :| 0 <= k < |s.calls|
      && Request(s, s.calls[k], State(s'.records, s.calls), c') && s'.calls == s.calls[k := c'];
    var r := s.calls[k].record;
    if s.calls[k].phase.PostRecord? && !Conflict(s.records, r) {
      assert forall id <- s.records :: !Conflicts(s.records[id], r);
    }
  }

  /** If at first no two tables that are not deprecated share a source, none do at any state of a run. */
  lemma {:induction false} SourcesStayUnique(states: seq<State>, i: nat)
    requires Run(states) && OneActiveTablePerSource(states[0].records) && i < |states|
    ensures OneActiveTablePerSource(states[i].records)
  {
    if i > 0 {
      SourcesStayUnique(states, i - 1);
      StepKeepsSources(states[i - 1], states[i]);
    }
  }

  /** At any moment of any run at most one record has a given name, and all the clients whose call
      for that name has returned returned that record. */
  lemma Agreement(states: seq<State>, i: nat, k: nat, l: nat)
    requires Run(states) && i < |states| && k < |states[i].calls| && l < |states[i].calls|
    requires states[i].calls[k].record.name == states[i].calls[l].record.name
    requires states[i].calls[k].phase.Returned? && states[i].calls[l].phase.Returned?
    ensures states[i].calls[k].phase == states[i].calls[l].phase
    ensures forall id <- states[i].records ::
              states[i].records[id].name == states[i].calls[k].record.name <==> id == states[i].calls[k].phase.id
  {
    InvAlways(states, i);
  }

  function TotalRemaining(calls: seq<Call>): nat {
    if calls == [] then 0 else calls[0].Remaining() + TotalRemaining(calls[1..])
  }

  lemma {:induction false} RemainingAfterOne(calls: seq<Call>, k: nat, c: Call)
    requires k < |calls|
    ensures TotalRemaining(calls[k := c]) == TotalRemaining(calls) - calls[k].Remaining() + c.Remaining()
  {
    if k > 0 {
      assert calls[k := c][1..] == calls[1..][k - 1 := c];
      RemainingAfterOne(calls[1..], k - 1, c);
    }
  }

  lemma RequestDecreases(s: State, c: Call, s': State, c': Call)
    requires Request(s, c, s', c')
    ensures c'.Remaining() < c.Remaining()
  {
  }

  lemma StepSendsOne(s: State, s': State)
    requires Step(s, s')
    ensures TotalRemaining(s'.calls) < TotalRemaining(s.calls)
  {
    var k, c' :| 0 <= k < |s.calls|
      && Request(s, s.calls[k], State(s'.records, s.calls), c') && s'.calls == s.calls[k := c'];
    RequestDecreases(s, s.calls[k], State(s'.records, s.calls), c');
    RemainingAfterOne(s.calls, k, c');
  }

  lemma {:induction false} AtMostFive(calls: seq<Call>)
    ensures TotalRemaining(calls) <= 5 * |calls|
  {
    if calls != [] { AtMostFive(calls[1..]); }
  }

  /** Every interleaving comes to an end: a run of n fresh calls has at most five requests a call. */
  lemma {:induction false} RunsEnd(states: seq<State>, i: nat)
    requires Run(states) && i < |states|
    ensures TotalRemaining(states[i].calls) + i <= TotalRemaining(states[0].calls) <= 5 * |states[0].calls|
  {
    if i > 0 {
      RunsEnd(states, i - 1);
      StepSendsOne(states[i - 1], states[i]);
    } else {
      AtMostFive(states[0].calls);
    }
  }

  /** Call j created the record and returned it. */
  ghost predicate Created(s: State, id: nat, j: nat) {
    && id in s.records && j < |s.calls|
    && s.calls[j].phase == Returned(id) && s.records[id] == Tagged(s.calls[j].record)
  }

  /** The record stands in the way of `r`, and was there from the start or created by a call that
      returned it. */
  ghost predicate StandsInTheWay(initial: Records, s: State, id: nat, r: TableRecord) {
    && id in s.records && Conflicts(s.records[id], r)
    && (id in initial || exists j :: Created(s, id, j))
  }

  ghost predicate Stopped(c: Call) {
    c.phase.Raised? || c.phase.GetExisting?
  }

  /** Initial records stay as they are, every other one was created by a call that returned it, and a
      call is stopped only by a record that conflicts with its own. */
  ghost predicate Blamed(initial: Records, s: State) {
    && (forall id <- initial :: id in s.records && s.records[id] == initial[id])
    && (forall id <- s.records :: id in initial || exists j :: Created(s, id, j))
    && (forall k :: 0 <= k < |s.calls| && Stopped(s.calls[k])
          ==> exists id :: StandsInTheWay(initial, s, id, s.calls[k].record))
  }

  lemma CreatedStays(s: State, s': State, id: nat, j: nat)
    requires Inv(s) && Step(s, s') && Created(s, id, j)
    ensures Created(s', id, j)
  {
    StepKeepsInv(s, s');
  }

  lemma InTheWayStays(initial: Records, s: State, s': State, id: nat, r: TableRecord)
    requires Inv(s) && Step(s, s') && StandsInTheWay(initial, s, id, r)
    ensures StandsInTheWay(initial, s', id, r)
  {
    StepKeepsInv(s, s');
    if j: nat :| Created(s, id, j) { CreatedStays(s, s', id, j); }
  }

  /** The request that stops a call meets a record that conflicts with the call's own. */
  lemma StoppedByConflict(s: State, c: Call, s': State, c': Call)
    requires ValidRecords(s.records) && Request(s, c, s', c') && Stopped(c') && !Stopped(c)
    ensures exists id :: id in s.records && Conflicts(s.records[id], c.record)
  {
    match c.phase
    case Check =>
      var id :| id in s.records && s.records[id].name == c.record.name;
      assert Conflicts(s.records[id], c.record);
    case CheckSaved =>
      assert Conflicts(s.records[c.record.id], c.record);
    case PostRecord =>
      assert Conflict(s.records, c.record);
    case _ =>
  }

  lemma NewRecordIsCreated(s: State, s': State, id: nat)
    requires Inv(s) && Step(s, s') && id in s'.records && id !in s.records
    ensures exists j :: Created(s', id, j)
  {
    var k, c' :| 0 <= k < |s.calls|
      && Request(s, s.calls[k], State(s'.records, s.calls), c') && s'.calls == s.calls[k := c'];
    assert Created(s', id, k);
  }

  lemma StillBlamed(initial: Records, s: State, s': State, k: nat)
    requires Inv(s) && Blamed(initial, s) && Step(s, s') && k < |s'.calls| && Stopped(s'.calls[k])
    ensures exists id :: StandsInTheWay(initial, s', id, s'.calls[k].record)
  {
    var l, c' :| 0 <= l < |s.calls|
      && Request(s, s.calls[l], State(s'.records, s.calls), c') && s'.calls == s.calls[l := c'];
    if Stopped(s.calls[k]) {
      var id :| StandsInTheWay(initial, s, id, s.calls[k].record);
      InTheWayStays(initial, s, s', id, s.calls[k].record);
    } else {
      StoppedByConflict(s, s.calls[l], State(s'.records, s.calls), c');
      var id :| id in s.records && Conflicts(s.records[id], s.calls[k].record);
      assert StandsInTheWay(initial, s, id, s.calls[k].record);
      InTheWayStays(initial, s, s', id, s.calls[k].record);
    }
  }

  lemma StepKeepsBlamed(initial: Records, s: State, s': State)
    requires ValidRecords(initial) && Inv(s) && Blamed(initial, s) && Step(s, s')
    ensures Blamed(initial, s')
  {
    StepKeepsInv(s, s');
    forall id | id in s'.records && id !in initial ensures exists j :: Created(s', id, j) {
      if id in s.records {
        var j: nat :| Created(s, id, j);
        CreatedStays(s, s', id, j);
      } else {
        NewRecordIsCreated(s, s', id);
      }
    }
    forall k | 0 <= k < |s'.calls| && Stopped(s'.calls[k])
      ensures exists id :: StandsInTheWay(initial, s', id, s'.calls[k].record)
    {
      StillBlamed(initial, s, s', k);
    }
  }

  lemma BlamedAtFirst(s: State)
    requires forall c <- s.calls :: c.Fresh()
    ensures Blamed(s.records, s)
  {
    forall k | 0 <= k < |s.calls| ensures !Stopped(s.calls[k]) {
      assert s.calls[k] in s.calls;
    }
  }

  lemma {:induction false} BlamedAlways(states: seq<State>, i: nat)
    requires Run(states) && i < |states|
    ensures Blamed(states[0].records, states[i])
  {
    if i > 0 {
      BlamedAlways(states, i - 1);
      InvAlways(states, i - 1);
      StepKeepsBlamed(states[0].records, states[i - 1], states[i]);
    } else {
      BlamedAtFirst(states[0]);
    }
  }

  /** A call that raised was stopped by a record that conflicts with its own: one that was there from
      the start, or one that another call created and returned. */
  lemma RaisedIsBlocked(states: seq<State>, i: nat, k: nat)
    requires Run(states) && i < |states| && k < |states[i].calls| && states[i].calls[k].phase.Raised?
    ensures var initial, calls, r := states[0].records, states[i].calls, states[i].calls[k].record;
            || Conflict(initial, r)
            || exists j: nat :: j < |calls| && j != k && calls[j].phase == Returned(calls[j].record.id)
                           && Conflicts(Tagged(calls[j].record), r)
  {
    BlamedAlways(states, i);
    InvAlways(states, i);
    var s, initial := states[i], states[0].records;
    var id :| StandsInTheWay(initial, s, id, s.calls[k].record);
    if id !in initial {
      var j: nat :| Created(s, id, j);
      assert s.records[id].id == id;
    }
  }

  ghost predicate SameRecords(s: State, s': State) {
    |s'.calls| == |s.calls| && forall k :: 0 <= k < |s.calls| ==> s'.calls[k].record == s.calls[k].record
  }

  lemma {:induction false} RecordsStay(states: seq<State>, i: nat)
    requires Run(states) && i < |states|
    ensures SameRecords(states[0], states[i])
  {
    if i > 0 {
      RecordsStay(states, i - 1);
      assert Step(states[i - 1], states[i]);
    }
  }

  /** A call whose record conflicts with nothing on the server and with no other call's record cannot
      be stopped: once it has ended it has returned. */
  lemma UncontestedReturns(states: seq<State>, i: nat, k: nat)
    requires Run(states) && i < |states| && k < |states[0].calls| == |states[i].calls|
    requires !Conflict(states[0].records, states[0].calls[k].record)
    requires forall j :: 0 <= j < |states[0].calls| && j != k ==>
               !Conflicts(Tagged(states[0].calls[j].record), states[0].calls[k].record)
    requires states[i].calls[k].Ended()
    ensures states[i].calls[k].phase.Returned?
  {
    RecordsStay(states, i);
    if states[i].calls[k].phase.Raised? {
      RaisedIsBlocked(states, i, k);
    }
  }

  /** On an empty server the calls cannot all fail each other: once all have ended, one returned. */
  lemma SomeoneReturns(states: seq<State>, i: nat)
    requires Run(states) && states[0].records == map[] && i < |states|
    requires states[0].calls != [] && forall c <- states[i].calls :: c.Ended()
    ensures exists c <- states[i].calls :: c.phase.Returned?
  {
    InvAlways(states, i);
    assert states[i].calls[0] in states[i].calls;
    if states[i].calls[0].phase.Raised? {
      RaisedIsBlocked(states, i, 0);
    }
  }

  /** The requests of one save, sent with nobody else in between. */
  ghost predicate Alone(states: seq<State>, calls: seq<Call>) {
    && |states| == |calls| >= 1 && calls[0].phase.CheckSaved? && calls[|calls| - 1].Ended()
    && forall i :: 0 <= i < |calls| - 1 ==> Request(states[i], calls[i], states[i + 1], calls[i + 1])
  }

  /** Sent alone, the requests amount to the `save` of ApiObjects: same records, same outcome. */
  lemma AloneIsSave(s: ApiObjects.Session, states: seq<State>, calls: seq<Call>)
    requires Alone(states, calls) && states[0].records == s.records
    requires ValidRecords(s.records) && UniqueTableNames(s.records)
    ensures var c, last := calls[0], |calls| - 1;
            var e := ApiObjects.Save(s, c.record, if c.retrieve then ApiObjects.Retrieve else ApiObjects.Raise);
            && states[last].records == e.session.records
            && (e.result.Success? ==> calls[last].phase == Returned(e.local.id))
            && (e.result.Failure? ==> calls[last].phase == Raised(e.result.error))
  {
    var c, records := calls[0], s.records;
    assert Request(states[0], calls[0], states[1], calls[1]);
    assert |calls| > 2 ==> Request(states[1], calls[1], states[2], calls[2]);
    assert |calls| > 3 ==> Request(states[2], calls[2], states[3], calls[3]);
    assert |calls| > 4 ==> Request(states[3], calls[3], states[4], calls[4]);
    if |calls| == 4 && ApiObjects.NameTaken(records, c.record.name) {
      assert ApiObjects.ByName(records, c.record.name) in records.Values;
    }
  }

  /** The requests of one call from its start, sent with nobody else in between. */
  ghost predicate WholeCall(states: seq<State>, calls: seq<Call>) {
    && |states| == |calls| >= 1 && calls[|calls| - 1].Ended()
    && forall i :: 0 <= i < |calls| - 1 ==> Request(states[i], calls[i], states[i + 1], calls[i + 1])
  }

  /** Sent alone, a `get_or_create` whose name is taken ends with its first request and returns the record
      of that name; otherwise it is the `save` of a record whose name is free. */
  lemma AloneIsGetOrCreate(s: ApiObjects.Session, states: seq<State>, calls: seq<Call>)
    requires WholeCall(states, calls) && calls[0].phase.Get? && states[0].records == s.records
    requires ValidRecords(s.records) && UniqueTableNames(s.records)
    ensures var c, last := calls[0], |calls| - 1;
            if ApiObjects.NameTaken(s.records, c.record.name) then
              && last == 1 && states[last].records == s.records
              && calls[last].phase == Returned(ApiObjects.ByName(s.records, c.record.name).id)
            else
              var e := ApiObjects.Save(s, c.record, if c.retrieve then ApiObjects.Retrieve else ApiObjects.Raise);
              && last >= 3 && states[last].records == e.session.records
              && (e.result.Success? ==> calls[last].phase == Returned(e.local.id))
              && (e.result.Failure? ==> calls[last].phase == Raised(e.result.error))
  {
    var c, records := calls[0], s.records;
    assert Request(states[0], calls[0], states[1], calls[1]);
    if ApiObjects.NameTaken(records, c.record.name) {
      assert ApiObjects.ByName(records, c.record.name) in records.Values;
      assert |calls| > 2 ==> Request(states[1], calls[1], states[2], calls[2]);
    } else {
      assert Request(states[1], calls[1], states[2], calls[2]);
      assert calls[2].phase == CheckSaved;
      assert forall i :: 2 <= i < |calls| ==> calls[i] == calls[2..][i - 2] && states[i] == states[2..][i - 2];
      AloneIsSave(s, states[2..], calls[2..]);
    }
  }

  /** A `create` sent alone raises on a taken name before it saves anything. */
  lemma AloneIsCreate(s: ApiObjects.Session, states: seq<State>, calls: seq<Call>)
    requires WholeCall(states, calls) && calls[0].phase.Check? && states[0].records == s.records
    ensures var c, last := calls[0], |calls| - 1;
            ApiObjects.NameTaken(s.records, c.record.name) ==>
              && last == 1 && states[last].records == s.records
              && calls[last].phase == Raised(DuplicatedRecordException)
  {
    assert Request(states[0], calls[0], states[1], calls[1]);
    assert |calls| > 2 ==> Request(states[1], calls[1], states[2], calls[2]);
  }
}
