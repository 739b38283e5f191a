/** Freshness of cached models over every run of several processes against one server. A run is
    the sequence of states between atomic requests; other parties may rewrite or delete records. */
module CacheFreshness {
  import opened Wrappers
  import opened Tables
  import opened ApiObjects

  type Client = nat

  datatype World = World(records: Records, caches: map<Client, Cache>, now: int) {
    function View(c: Client): Session {
      Session(records, if c in caches then caches[c] else map[], now)
    }
    function With(c: Client, s: Session): World {
      World(s.records, caches[c := s.cache], s.now)
    }
  }

  datatype Event =
    | ReadModel(c: Client, id: nat)                       // cached_model
    | Refresh(c: Client, id: nat)                         // get_by_id, saved
    | SendPatch(c: Client, local: TableRecord, change: Payload)
    | SendPost(c: Client, record: TableRecord)
    | FetchByName(c: Client, name: string)                // save after a conflict: GET by name, then cache
    | Evict(c: Client, id: nat)                           // the cache is full
    | Elapse(pause: nat)
    | Foreign(records: Records)                           // writes and deletes that bypass every cache

  ghost function Next(w: World, e: Event): World {
    match e
    case ReadModel(c, id) => w.With(c, Read(w.View(c), id).1)
    case Refresh(c, id) => w.With(c, Fetch(w.View(c), id).1)
    case SendPatch(c, local, change) => w.With(c, Update(w.View(c), local, change).session)
    case SendPost(c, r) =>
      if Conflict(w.records, r) then w
      else w.With(c, w.View(c).(records := Post(w.records, r)).Store(Tagged(r)))
    case FetchByName(c, name) =>
      if NameTaken(w.records, name) then w.With(c, w.View(c).Store(ByName(w.records, name))) else w
    case Evict(c, id) => w.With(c, w.View(c).(cache := w.View(c).cache - {id}))
    case Elapse(pause) => w.(now := w.now + pause)
    case Foreign(records) => w.(records := records)
  }

  /** Records carry their own id; no write changes that. */
  predicate Keyed(records: Records) {
    forall id <- records :: records[id].id == id
  }

  ghost predicate Run(states: seq<World>, events: seq<Event>) {
    && |states| == |events| + 1
    && states[0].caches == map[] && Keyed(states[0].records)
    && (forall i :: 0 <= i < |events| ==> states[i + 1] == Next(states[i], events[i]))
    && (forall i :: 0 <= i < |events| && events[i].Foreign? ==> Keyed(events[i].records))
  }

  /** The event writes the cache entry of `id` in process `c`. */
  ghost predicate Stores(w: World, e: Event, c: Client, id: nat) {
    match e
    case ReadModel(c', id') => c' == c && id' == id && !w.View(c).Live(id) && id in w.records
    case Refresh(c', id') => c' == c && id' == id && id in w.records
    case SendPatch(c', local, _) => c' == c && local.id == id && id in w.records
    case SendPost(c', r) => c' == c && r.id == id && !Conflict(w.records, r)
    case FetchByName(c', name) => c' == c && NameTaken(w.records, name) && ByName(w.records, name).id == id
    case _ => false
  }

  /** The state of the run that process `c`'s copy of `id` was taken from, as of state `i`. */
  ghost function Origin(states: seq<World>, events: seq<Event>, i: nat, c: Client, id: nat): (o: nat)
    requires |states| == |events| + 1 && i <= |events|
    ensures o <= i
  {
    if i == 0 then 0
    else if Stores(states[i - 1], events[i - 1], c, id) then i
    else Origin(states, events, i - 1, c, id)
  }

  ghost predicate FaithfulEntry(states: seq<World>, events: seq<Event>, i: nat, c: Client, id: nat)
    requires |states| == |events| + 1 && i <= |events|
  {
    var s := states[i].View(c);
    var origin := states[Origin(states, events, i, c, id)];
    id in s.cache ==>
      && id in origin.records
      && s.cache[id] == Entry(origin.records[id], origin.now + TTL)
  }

  lemma KeyedAlways(states: seq<World>, events: seq<Event>, i: nat)
    requires Run(states, events) && i <= |events|
    ensures Keyed(states[i].records)
  {
    if i > 0 {
      KeyedAlways(states, events, i - 1);
      assert states[i] == Next(states[i - 1], events[i - 1]);
    }
  }

  /** One event either writes the entry of `id` from the state it leads to, or keeps or drops it. */
  lemma EntryAfter(w: World, e: Event, c: Client, id: nat)
    requires Keyed(w.records)
    ensures var s, s' := w.View(c), Next(w, e).View(c);
      if Stores(w, e, c, id) then
        id in s'.records && id in s'.cache && s'.cache[id] == Entry(s'.records[id], s'.now + TTL)
      else
        id in s'.cache ==> id in s.cache && s'.cache[id] == s.cache[id]
  {
    if e.FetchByName? && NameTaken(w.records, e.name) {
      assert ByName(w.records, e.name) in w.records.Values;
    }
  }

  /** Every cache entry is the record of the state it was taken from, and expires TTL after it. */
  lemma {:induction false} EntriesAreFaithful(states: seq<World>, events: seq<Event>, i: nat, c: Client, id: nat)
    requires Run(states, events) && i <= |events|
    ensures FaithfulEntry(states, events, i, c, id)
  {
    if i > 0 {
      EntriesAreFaithful(states, events, i - 1, c, id);
      KeyedAlways(states, events, i - 1);
      EntryAfter(states[i - 1], events[i - 1], c, id);
    }
  }

  lemma {:induction false} OriginNeverGoesBack(states: seq<World>, events: seq<Event>, i: nat, j: nat,
                                               c: Client, id: nat)
    requires |states| == |events| + 1 && i <= j <= |events|
    ensures Origin(states, events, i, c, id) <= Origin(states, events, j, c, id)
    decreases j
  {
    if i < j {
      OriginNeverGoesBack(states, events, i, j - 1, c, id);
    }
  }

  /** The state whose record a read at step `i` returns. */
  ghost function Witness(states: seq<World>, events: seq<Event>, i: nat): (o: nat)
    requires |states| == |events| + 1 && i < |events| && events[i].ReadModel?
    ensures o <= i + 1
  {
    Origin(states, events, i + 1, events[i].c, events[i].id)
  }

  ghost predicate Returns(states: seq<World>, events: seq<Event>, i: nat, r: TableRecord)
    requires |states| == |events| + 1 && i < |events| && events[i].ReadModel?
  {
    Read(states[i].View(events[i].c), events[i].id).0 == Success(r)
  }

  /** A read returns what the server held at a moment less than TTL ago. */
  lemma ReadsAreFresh(states: seq<World>, events: seq<Event>, i: nat, r: TableRecord)
    requires Run(states, events) && i < |events| && events[i].ReadModel?
    requires Returns(states, events, i, r)
    ensures var o, id := Witness(states, events, i), events[i].id;
            && id in states[o].records && states[o].records[id] == r
            && states[i].now - states[o].now < TTL
  {
    var c, id := events[i].c, events[i].id;
    EntriesAreFaithful(states, events, i, c, id);
    KeyedAlways(states, events, i);
    assert states[i + 1] == Next(states[i], events[i]);
  }

  /** Successive reads of one key by one process never return an older state. */
  lemma ReadsNeverGoBack(states: seq<World>, events: seq<Event>, i: nat, j: nat)
    requires Run(states, events) && i < j < |events|
    requires events[i].ReadModel? && events[j].ReadModel?
    requires events[i].c == events[j].c && events[i].id == events[j].id
    ensures Witness(states, events, i) <= Witness(states, events, j)
  {
    OriginNeverGoesBack(states, events, i + 1, j + 1, events[i].c, events[i].id);
  }

  /** Process `c` writes record `id` at this step and the server accepts. */
  ghost predicate WritesSuccessfully(w: World, e: Event, c: Client, id: nat) {
    || (e.SendPatch? && e.c == c && e.local.id == id && id in w.records)
    || (e.SendPost? && e.c == c && e.record.id == id && !Conflict(w.records, e.record))
  }

  /** A read after the process' own accepted write sees the state that write made, or a later one. */
  lemma ReadYourWrites(states: seq<World>, events: seq<Event>, i: nat, j: nat)
    requires Run(states, events) && i < j < |events|
    requires events[j].ReadModel?
    requires WritesSuccessfully(states[i], events[i], events[j].c, events[j].id)
    ensures i + 1 <= Witness(states, events, j)
  {
    OriginNeverGoesBack(states, events, i + 1, j + 1, events[j].c, events[j].id);
  }

  ghost function Play(w: World, events: seq<Event>): World
    decreases |events|
  {
    if events == [] then w else Play(Next(w, events[0]), events[1..])
  }

  lemma {:induction false} PlaySnoc(w: World, events: seq<Event>, e: Event)
    ensures Play(w, events + [e]) == Next(Play(w, events), e)
    decreases |events|
  {
    if events == [] {
      assert [e][1..] == [];
    } else {
      assert (events + [e])[1..] == events[1..] + [e];
      PlaySnoc(Next(w, events[0]), events[1..], e);
    }
  }

  lemma PlayTwo(w: World, e1: Event, e2: Event)
    ensures Play(w, [e1, e2]) == Next(Next(w, e1), e2)
  {
    PlaySnoc(w, [], e1);
    PlaySnoc(w, [e1], e2);
    assert [e1] + [e2] == [e1, e2] && [] + [e1] == [e1];
  }

  /** The requests `save` sends, in order. */
  ghost function SaveEvents(records: Records, c: Client, local: TableRecord, resolution: ConflictResolution)
    : seq<Event>
  {
    if local.id in records && resolution == Raise then [Refresh(c, local.id)]
    else if Conflict(records, local) && resolution == Retrieve then
      [Refresh(c, local.id), SendPost(c, local), FetchByName(c, local.name)]
    else [Refresh(c, local.id), SendPost(c, local)]
  }

  lemma PlayThree(w: World, e1: Event, e2: Event, e3: Event)
    ensures Play(w, [e1, e2, e3]) == Next(Next(Next(w, e1), e2), e3)
  {
    PlayTwo(w, e1, e2);
    PlaySnoc(w, [e1, e2], e3);
    assert [e1, e2] + [e3] == [e1, e2, e3];
  }

  lemma FetchView(w: World, c: Client, name: string)
    ensures Next(w, FetchByName(c, name)).View(c)
            == if NameTaken(w.records, name) then w.View(c).Store(ByName(w.records, name)) else w.View(c)
  {
  }

  lemma RefreshView(w: World, c: Client, id: nat)
    ensures Next(w, Refresh(c, id)).View(c) == Fetch(w.View(c), id).1
    ensures Next(w, Refresh(c, id)).records == w.records
  {
  }

  lemma PostView(w: World, c: Client, r: TableRecord)
    ensures Conflict(w.records, r) ==> Next(w, SendPost(c, r)) == w
    ensures !Conflict(w.records, r) ==>
              Next(w, SendPost(c, r)).View(c) == w.View(c).(records := Post(w.records, r)).Store(Tagged(r))
  {
  }

  /** `save` on a handle is a run of events, so the theorems above cover it. */
  lemma SaveIsARun(w: World, c: Client, local: TableRecord, resolution: ConflictResolution)
    ensures Save(w.View(c), local, resolution).session
            == Play(w, SaveEvents(w.records, c, local, resolution)).View(c)
  {
    var events := SaveEvents(w.records, c, local, resolution);
    RefreshView(w, c, local.id);
    var w1 := Next(w, events[0]);
    if |events| == 1 {
      PlaySnoc(w, [], events[0]);
      assert [] + [events[0]] == events;
    } else {
      PlayTwo(w, events[0], events[1]);
      PostView(w1, c, local);
      if |events| == 3 {
        PlayThree(w, events[0], events[1], events[2]);
        FetchView(w1, c, local.name);
      }
    }
  }

  /** A column edit on a handle is a run of events: two reads of the model with a pause between
      them, and the PATCH of what they returned. */
  lemma ColumnEditIsARun(w: World, c: Client, local: TableRecord, edit: Edit, pause: nat)
    requires edit.IsColumnEdit() && edit.Accepted()
    requires HasColumn(ColumnsInfo(w.View(c), local).0, edit.column)
    ensures var (columns, s) := ColumnsInfo(w.View(c), local);
            var (later, _) := ColumnsInfo(s.Elapse(pause), local);
            var patch := SendPatch(c, local, EditPayload(columns, later, edit));
            Apply(w.View(c), local, edit, pause).session
            == Play(w, [ReadModel(c, local.id), Event.Elapse(pause), ReadModel(c, local.id), patch]).View(c)
  {
    var read, wait := ReadModel(c, local.id), Event.Elapse(pause);
    var w1 := Next(w, read);
    var w2 := Next(w1, wait);
    var w3 := Next(w2, read);
    assert w1.View(c) == Read(w.View(c), local.id).1;
    assert w2.View(c) == w1.View(c).Elapse(pause);
    assert w3.View(c) == Read(w2.View(c), local.id).1;
    var change := EditPayload(ColumnsInfo(w.View(c), local).0, ColumnsInfo(w2.View(c), local).0, edit);
    var patch := SendPatch(c, local, change);
    assert Next(w3, patch).View(c) == Update(w3.View(c), local, change).session;
    PlayThree(w, read, wait, read);
    PlaySnoc(w, [read, wait, read], patch);
    assert [read, wait, read] + [patch] == [read, wait, read, patch];
  }
}
