/** The per-tile summary of job logs (featurebyte/api/feature_job.py): a left join of the logs with
    the tile specs, a group-by, and columns of the result filled in place. */
module JobSummary {
  import opened Wrappers
  import opened Arithmetic
  import opened JobSchedule
  import opened Sequences

  /** The log of one job; durations are whole seconds, null for a job that did not complete. */
  datatype Log = Log(aggregationId: string, completed: Option<int>, error: Option<string>, duration: Option<int>)

  /** The service derives a duration from the completion time. */
  predicate ValidLogs(logs: seq<Log>) {
    forall i :: 0 <= i < |logs| ==> (logs[i].duration.Some? <==> logs[i].completed.Some?)
  }

  /** One row of the tile spec table; a tile shared by several features has several rows. */
  datatype Spec = Spec(featureName: string, aggregationId: string, frequency: int, offset: int)

  const MICROSECONDS := 1_000_000

  /** The validators of a tile spec: minutes of period, seconds of offset up to the period. */
  predicate ValidSpec(spec: Spec) {
    0 < spec.frequency && 0 <= spec.offset <= spec.frequency * 60
  }

  predicate ValidSpecs(specs: seq<Spec>) {
    forall i :: 0 <= i < |specs| ==> ValidSpec(specs[i])
  }

  function ScheduleOf(spec: Spec): Schedule {
    Schedule(spec.frequency * 60 * MICROSECONDS, spec.offset * MICROSECONDS)
  }

  datatype Key = Key(aggregationId: string, frequency: int)

  /** A joined row: the log, and the frequency of the matching spec if there is one. */
  datatype Joined = Joined(log: Log, frequency: Option<int>)

  function Keys(specs: seq<Spec>): seq<Key> {
    seq(|specs|, i requires 0 <= i < |specs| => Key(specs[i].aggregationId, specs[i].frequency))
  }

  function Ids(specs: seq<Spec>): seq<string> {
    seq(|specs|, i requires 0 <= i < |specs| => specs[i].aggregationId)
  }

  /** `drop_duplicates`: the first occurrence of every value. */
  function Distinct<T(==, !new)>(xs: seq<T>): (r: seq<T>)
    ensures forall x :: x in r <==> x in xs
    ensures forall i, j :: 0 <= i < j < |r| ==> r[i] != r[j]
  {
    if xs == [] then []
    else
      var front, x := Distinct(xs[..|xs| - 1]), xs[|xs| - 1];
      assert xs == xs[..|xs| - 1] + [x];
      if x in front then front else front + [x]
  }

  /** The joined rows of one log: one for every key with its id. */
  function Matches(log: Log, keys: seq<Key>): seq<Joined> {
    if keys == [] then []
    else (if keys[0].aggregationId == log.aggregationId then [Joined(log, Some(keys[0].frequency))] else [])
         + Matches(log, keys[1..])
  }

  /** A log without a match is kept once, without a frequency. */
  function JoinOne(log: Log, keys: seq<Key>): seq<Joined> {
    var matches := Matches(log, keys);
    if matches == [] then [Joined(log, None)] else matches
  }

  function LeftJoin(logs: seq<Log>, keys: seq<Key>): seq<Joined> {
    if logs == [] then [] else JoinOne(logs[0], keys) + LeftJoin(logs[1..], keys)
  }

  /** Every log whose id carries one frequency at most. */
  predicate OneFrequency(specs: seq<Spec>) {
    forall i, j :: 0 <= i < |specs| && 0 <= j < |specs| && specs[i].aggregationId == specs[j].aggregationId
                   ==> specs[i].frequency == specs[j].frequency
  }

  function KeyCount(keys: seq<Key>, id: string): nat {
    if keys == [] then 0 else (if keys[0].aggregationId == id then 1 else 0) + KeyCount(keys[1..], id)
  }

  /** What a joined row is counted for. */
  datatype Kind = Completed | Failed | Late(tolerance: int) | Exceeding {
    predicate Counts(log: Log, frequency: Option<int>) {
      match this
      case Completed => log.completed.Some?
      case Failed => log.error.Some?
      case Late(tolerance) => log.duration.Some? && log.duration.value > tolerance
      case Exceeding => log.duration.Some? && frequency.Some? && log.duration.value > frequency.value * 60
    }
  }

  /** Grouped count: rows without a match belong to no group. */
  function GroupCount(rows: seq<Joined>, id: string, kind: Kind): nat {
    if rows == [] then 0
    else
      var row := rows[0];
      (if row.frequency.Some? && row.log.aggregationId == id && kind.Counts(row.log, row.frequency) then 1 else 0)
      + GroupCount(rows[1..], id, kind)
  }

  function LogCount(logs: seq<Log>, id: string, kind: Kind): nat {
    if logs == [] then 0
    else
      (if logs[0].aggregationId == id && kind.Counts(logs[0], None) then 1 else 0) + LogCount(logs[1..], id, kind)
  }

  lemma {:induction false} MatchesCount(log: Log, keys: seq<Key>)
    ensures |Matches(log, keys)| == KeyCount(keys, log.aggregationId)
    ensures forall row <- Matches(log, keys) :: row.log == log && row.frequency.Some?
  {
    if keys != [] {
      MatchesCount(log, keys[1..]);
    }
  }

  lemma {:induction false} GroupCountAppends(a: seq<Joined>, b: seq<Joined>, id: string, kind: Kind)
    ensures GroupCount(a + b, id, kind) == GroupCount(a, id, kind) + GroupCount(b, id, kind)
  {
    if a == [] {
      assert a + b == b;
    } else {
      assert (a + b)[1..] == a[1..] + b;
      GroupCountAppends(a[1..], b, id, kind);
    }
  }

  lemma {:induction false} GroupCountUniform(rows: seq<Joined>, log: Log, id: string, kind: Kind)
    requires !kind.Exceeding? && forall row <- rows :: row.log == log && row.frequency.Some?
    ensures GroupCount(rows, id, kind) == if log.aggregationId == id && kind.Counts(log, None) then |rows| else 0
  {
    if rows != [] {
      assert rows[0] in rows;
      GroupCountUniform(rows[1..], log, id, kind);
    }
  }

  lemma JoinOneCount(log: Log, keys: seq<Key>, id: string, kind: Kind)
    requires !kind.Exceeding?
    ensures GroupCount(JoinOne(log, keys), id, kind)
            == if log.aggregationId == id && kind.Counts(log, None) then KeyCount(keys, id) else 0
  {
    MatchesCount(log, keys);
    if Matches(log, keys) == [] {
      assert JoinOne(log, keys)[1..] == [];
    } else {
      GroupCountUniform(Matches(log, keys), log, id, kind);
    }
  }

  /** A group counts every log of its tile once per frequency of that tile. */
  lemma {:induction false} GroupCountIsMultiple(logs: seq<Log>, keys: seq<Key>, id: string, kind: Kind)
    requires !kind.Exceeding?
    ensures GroupCount(LeftJoin(logs, keys), id, kind) == KeyCount(keys, id) * LogCount(logs, id, kind)
  {
    if logs != [] {
      GroupCountIsMultiple(logs[1..], keys, id, kind);
      GroupCountAppends(JoinOne(logs[0], keys), LeftJoin(logs[1..], keys), id, kind);
      JoinOneCount(logs[0], keys, id, kind);
      var n, rest := KeyCount(keys, id), LogCount(logs[1..], id, kind);
      var hit := if logs[0].aggregationId == id && kind.Counts(logs[0], None) then 1 else 0;
      assert LogCount(logs, id, kind) == hit + rest;
      assert GroupCount(JoinOne(logs[0], keys), id, kind) == n * hit;
      MulDistributes(n, hit, rest);
    }
  }

  lemma {:induction false} KeyCountOne(keys: seq<Key>, id: string)
    requires forall i, j :: 0 <= i < j < |keys| ==> keys[i].aggregationId != keys[j].aggregationId
    ensures KeyCount(keys, id) == if exists k <- keys :: k.aggregationId == id then 1 else 0
  {
    if keys != [] {
      KeyCountOne(keys[1..], id);
      if keys[0].aggregationId == id {
        assert keys[0] in keys;
        forall k | k in keys[1..] ensures k.aggregationId != id {
          var j :| 0 <= j < |keys[1..]| && keys[1..][j] == k;
          assert keys[j + 1] == k;
        }
      }
    }
  }

  lemma KnownIds(specs: seq<Spec>, id: string)
    ensures (exists k <- Distinct(Keys(specs)) :: k.aggregationId == id) <==> id in Ids(specs)
  {
    var keys, ids := Keys(specs), Ids(specs);
    if id in ids {
      var i :| 0 <= i < |specs| && ids[i] == id;
      assert keys[i] in Distinct(keys);
    }
    if k :| k in Distinct(keys) && k.aggregationId == id {
      var i :| 0 <= i < |keys| && keys[i] == k;
      assert ids[i] == id;
    }
  }

  /** With one frequency a tile, its id is in one key if it is known and in none otherwise. */
  lemma KeysOfSpecs(specs: seq<Spec>, id: string)
    requires OneFrequency(specs)
    ensures KeyCount(Distinct(Keys(specs)), id) == if id in Ids(specs) then 1 else 0
  {
    var keys := Keys(specs);
    var d := Distinct(keys);
    forall i, j | 0 <= i < j < |d| ensures d[i].aggregationId != d[j].aggregationId {
      assert d[i] in keys && d[j] in keys;
    }
    KeyCountOne(d, id);
    KnownIds(specs, id);
  }

  predicate OneKey(keys: seq<Key>, log: Log) {
    KeyCount(keys, log.aggregationId) <= 1
  }

  /** The joined row of a log that at most one key matches. */
  function OnlyRow(log: Log, keys: seq<Key>): Joined
    requires OneKey(keys, log)
  {
    JoinOne(log, keys)[0]
  }

  lemma JoinOneKeeps(log: Log, keys: seq<Key>)
    requires OneKey(keys, log)
    ensures JoinOne(log, keys) == [OnlyRow(log, keys)] && OnlyRow(log, keys).log == log
    ensures OnlyRow(log, keys).frequency.Some? <==> KeyCount(keys, log.aggregationId) == 1
  {
    MatchesCount(log, keys);
  }

  lemma JoinStep(logs: seq<Log>, keys: seq<Key>)
    requires logs != [] && OneKey(keys, logs[0])
    ensures LeftJoin(logs, keys) == [OnlyRow(logs[0], keys)] + LeftJoin(logs[1..], keys)
  {
    JoinOneKeeps(logs[0], keys);
  }

  lemma {:induction false} JoinedAt(logs: seq<Log>, keys: seq<Key>, i: nat)
    requires i < |logs| && forall log <- logs :: OneKey(keys, log)
    ensures |LeftJoin(logs, keys)| == |logs| && LeftJoin(logs, keys)[i] == OnlyRow(logs[i], keys)
  {
    JoinStep(logs, keys);
    var rest := logs[1..];
    if rest == [] {
      assert LeftJoin(rest, keys) == [];
    } else if i == 0 {
      JoinedAt(rest, keys, 0);
    } else {
      JoinedAt(rest, keys, i - 1);
    }
  }

  /** If each aggregation id has one frequency the left join keeps each log row exactly once, in order. */
  lemma JoinKeepsRows(logs: seq<Log>, specs: seq<Spec>)
    requires OneFrequency(specs)
    ensures var rows := LeftJoin(logs, Distinct(Keys(specs)));
            |rows| == |logs| && forall i :: 0 <= i < |logs| ==>
              rows[i].log == logs[i] && (rows[i].frequency.Some? <==> logs[i].aggregationId in Ids(specs))
  {
    var keys := Distinct(Keys(specs));
    forall log | log in logs ensures OneKey(keys, log) {
      KeysOfSpecs(specs, log.aggregationId);
    }
    var rows := LeftJoin(logs, keys);
    forall i | 0 <= i < |logs|
      ensures |rows| == |logs| && rows[i].log == logs[i]
      ensures rows[i].frequency.Some? <==> logs[i].aggregationId in Ids(specs)
    {
      JoinedAt(logs, keys, i);
      JoinOneKeeps(logs[i], keys);
      KeysOfSpecs(specs, logs[i].aggregationId);
    }
  }

  /** The rows the join produces in general; it duplicates exactly the logs with several frequencies. */
  lemma {:induction false} JoinSizeIff(logs: seq<Log>, keys: seq<Key>)
    ensures |LeftJoin(logs, keys)| >= |logs|
    ensures |LeftJoin(logs, keys)| == |logs| <==> forall log <- logs :: KeyCount(keys, log.aggregationId) <= 1
  {
    if logs != [] {
      JoinSizeIff(logs[1..], keys);
      MatchesCount(logs[0], keys);
      assert forall log :: log in logs <==> log == logs[0] || log in logs[1..];
    }
  }

  /** One row per aggregation id, with the parameters of its first spec. */
  function FirstSpecs(specs: seq<Spec>): (r: seq<Spec>)
    ensures forall spec <- r :: spec in specs
    ensures ValidSpecs(specs) ==> ValidSpecs(r)
  {
    if specs == [] then []
    else
      var front, spec := FirstSpecs(specs[..|specs| - 1]), specs[|specs| - 1];
      if spec.aggregationId in Ids(front) then front else front + [spec]
  }

  lemma IdsOfOneMore(specs: seq<Spec>, spec: Spec)
    ensures Ids(specs + [spec]) == Ids(specs) + [spec.aggregationId]
  {
  }

  lemma {:induction false} FirstSpecsAreDistinct(specs: seq<Spec>)
    ensures Ids(FirstSpecs(specs)) == Distinct(Ids(specs))
  {
    if specs != [] {
      var n := |specs| - 1;
      var front, id := FirstSpecs(specs[..n]), specs[n].aggregationId;
      FirstSpecsAreDistinct(specs[..n]);
      assert Ids(specs)[..n] == Ids(specs[..n]) && Ids(specs)[n] == id;
      IdsOfOneMore(front, specs[n]);
      assert FirstSpecs(specs) == if id in Ids(front) then front else front + [specs[n]];
      assert Distinct(Ids(specs)) == if id in Ids(front) then Ids(front) else Ids(front) + [id];
    }
  }

  /** The first spec of a tile stands for it. */
  ghost predicate FirstOfItsTile(specs: seq<Spec>, spec: Spec) {
    exists k :: 0 <= k < |specs| && specs[k] == spec
      && forall j :: 0 <= j < k ==> specs[j].aggregationId != spec.aggregationId
  }

  lemma StillFirst(specs: seq<Spec>, spec: Spec)
    requires specs != [] && FirstOfItsTile(specs[..|specs| - 1], spec)
    ensures FirstOfItsTile(specs, spec)
  {
    var front := specs[..|specs| - 1];
    var k :| 0 <= k < |front| && front[k] == spec
             && forall j :: 0 <= j < k ==> front[j].aggregationId != spec.aggregationId;
    assert specs[k] == spec && forall j :: 0 <= j < k ==> specs[j] == front[j];
  }

  lemma {:induction false} FirstSpecsAreFirst(specs: seq<Spec>)
    ensures forall spec <- FirstSpecs(specs) :: FirstOfItsTile(specs, spec)
  {
    if specs != [] {
      var n := |specs| - 1;
      var front, last := specs[..n], specs[n];
      FirstSpecsAreFirst(front);
      forall spec | spec in FirstSpecs(specs) ensures FirstOfItsTile(specs, spec) {
        if spec in FirstSpecs(front) {
          StillFirst(specs, spec);
        } else {
          FirstSpecsAreDistinct(front);
          assert last.aggregationId !in Ids(front);
          assert forall j :: 0 <= j < n ==> Ids(front)[j] == specs[j].aggregationId;
          assert specs[n] == spec;
        }
      }
    }
  }

  /** A row of the summary. Statistics of a tile without joined rows are null. */
  datatype Row = Row(
    aggregationId: string,
    frequency: int,
    expectedJobs: int,
    completedJobs: Option<int>,
    failedJobs: Option<int>,
    exceedPeriod: Option<int>,
    fracLate: Option<real>,          // first the number of late jobs, in the end their fraction
    maxDuration: Option<int>,
    percentile95: Option<real>,
    lastCompleted: Option<int>,
    incompleteJobs: int,
    timeSinceLast: Option<int>)

  /** Larger of two values, of which one may be missing. */
  function MaxOf(x: Option<int>, y: Option<int>): Option<int> {
    if x.None? then y else if y.None? then x else Some(Max(x.value, y.value))
  }

  /** Grouped maximum of the completion times. */
  function MaxCompleted(rows: seq<Joined>, id: string): Option<int> {
    if rows == [] then None
    else
      var row := rows[0];
      MaxOf(if row.frequency.Some? && row.log.aggregationId == id then row.log.completed else None,
            MaxCompleted(rows[1..], id))
  }

  /** Grouped maximum of the durations. */
  function MaxDuration(rows: seq<Joined>, id: string): Option<int> {
    if rows == [] then None
    else
      var row := rows[0];
      MaxOf(if row.frequency.Some? && row.log.aggregationId == id then row.log.duration else None,
            MaxDuration(rows[1..], id))
  }

  /** The group's durations, in log order. */
  function DurationsOf(rows: seq<Joined>, id: string): seq<int> {
    if rows == [] then []
    else
      var row := rows[0];
      (if row.frequency.Some? && row.log.aggregationId == id && row.log.duration.Some? then [row.log.duration.value]
       else [])
      + DurationsOf(rows[1..], id)
  }

  function Inserted(x: int, xs: seq<int>): seq<int> {
    if xs == [] || x <= xs[0] then [x] + xs else [xs[0]] + Inserted(x, xs[1..])
  }

  function Sorted(xs: seq<int>): seq<int> {
    if xs == [] then [] else Inserted(xs[0], Sorted(xs[1..]))
  }

  predicate Ascending(xs: seq<int>) {
    forall i, j :: 0 <= i <= j < |xs| ==> xs[i] <= xs[j]
  }

  lemma {:induction false} InsertedPermutes(x: int, xs: seq<int>)
    ensures multiset(Inserted(x, xs)) == multiset(xs) + multiset{x}
  {
    if xs != [] && xs[0] < x {
      InsertedPermutes(x, xs[1..]);
      assert xs == [xs[0]] + xs[1..];
    }
  }

  predicate AllAtLeast(low: int, xs: seq<int>) {
    forall i :: 0 <= i < |xs| ==> low <= xs[i]
  }

  lemma PrependAscends(x: int, xs: seq<int>)
    requires Ascending(xs) && AllAtLeast(x, xs)
    ensures Ascending([x] + xs)
  {
  }

  lemma {:induction false} InsertedAtLeast(x: int, xs: seq<int>, low: int)
    requires low <= x && AllAtLeast(low, xs)
    ensures AllAtLeast(low, Inserted(x, xs))
  {
    if xs != [] && xs[0] < x { InsertedAtLeast(x, xs[1..], low); }
  }

  lemma {:induction false} InsertedAscends(x: int, xs: seq<int>)
    requires Ascending(xs)
    ensures Ascending(Inserted(x, xs))
  {
    if xs == [] || x <= xs[0] {
      PrependAscends(x, xs);
    } else {
      InsertedAscends(x, xs[1..]);
      InsertedAtLeast(x, xs[1..], xs[0]);
      PrependAscends(xs[0], Inserted(x, xs[1..]));
    }
  }

  lemma {:induction false} SortedAscends(xs: seq<int>)
    ensures Ascending(Sorted(xs)) && multiset(Sorted(xs)) == multiset(xs) && |Sorted(xs)| == |xs|
  {
    if xs != [] {
      SortedAscends(xs[1..]);
      InsertedAscends(xs[0], Sorted(xs[1..]));
      InsertedPermutes(xs[0], Sorted(xs[1..]));
      assert xs == [xs[0]] + xs[1..];
      assert |multiset(Sorted(xs))| == |multiset(xs)|;
    }
  }

  /** The point `part` hundredths of the way from one value to the next. */
  function Interpolated(low: int, high: int, part: int): real {
    low as real + (high - low) as real * (part as real / 100.0)
  }

  lemma ProductIsShare(gap: real, share: real)
    requires 0.0 <= gap && 0.0 <= share <= 1.0
    ensures 0.0 <= gap * share <= gap
  {
    assert gap * share + gap * (1.0 - share) == gap;
  }

  lemma InterpolatedIsBetween(low: int, high: int, part: int)
    requires low <= high && 0 <= part < 100
    ensures low as real <= Interpolated(low, high, part) <= high as real
  {
    var gap, share := (high - low) as real, part as real / 100.0;
    var step := gap * share;
    assert 0.0 <= step <= gap by { ProductIsShare(gap, share); }
    assert low as real + gap == high as real;
    assert Interpolated(low, high, part) == low as real + step;
  }

  /** The quantile at 0.95 of values in ascending order, interpolated between the two nearest. */
  function Percentile95(sorted: seq<int>): Option<real> {
    if sorted == [] then None
    else
      var position := 95 * (|sorted| - 1);
      var k, part := position / 100, position % 100;
      Some(Interpolated(sorted[k], sorted[if k == |sorted| - 1 then k else k + 1], part))
  }

  /** 95 in 100 steps from the least of the values to the greatest lie at or below it, the rest at or
      above. */
  lemma PercentileSplits(sorted: seq<int>)
    requires sorted != [] && Ascending(sorted)
    ensures var k, p := 95 * (|sorted| - 1) / 100, Percentile95(sorted);
            && p.Some?
            && (forall i :: 0 <= i <= k ==> sorted[i] as real <= p.value)
            && (forall i :: k < i < |sorted| ==> p.value <= sorted[i] as real)
  {
    var n := |sorted| - 1;
    var k, p := 95 * n / 100, Percentile95(sorted).value;
    var above := if k == n then k else k + 1;
    InterpolatedIsBetween(sorted[k], sorted[above], 95 * n % 100);
    forall i | 0 <= i <= k ensures sorted[i] as real <= p {
      assert sorted[i] <= sorted[k];
    }
    forall i | k < i <= n ensures p <= sorted[i] as real {
      assert sorted[above] <= sorted[i];
    }
  }

  /** Grouped 95th percentile of the durations. */
  function DurationPercentile(rows: seq<Joined>, id: string): Option<real> {
    Percentile95(Sorted(DurationsOf(rows, id)))
  }

  lemma {:induction false} LastCompletedIff(rows: seq<Joined>, id: string)
    ensures MaxCompleted(rows, id).Some? <==> GroupCount(rows, id, Completed) > 0
  {
    if rows != [] {
      LastCompletedIff(rows[1..], id);
    }
  }

  /** A completed job of the tile. */
  predicate CompletedFor(row: Joined, id: string) {
    row.frequency.Some? && row.log.aggregationId == id && row.log.completed.Some?
  }

  /** The last completion of a tile is the latest one of its joined logs. */
  lemma {:induction false} LastCompletedIsLatest(rows: seq<Joined>, id: string)
    ensures forall row <- rows :: CompletedFor(row, id)
              ==> MaxCompleted(rows, id).Some? && row.log.completed.value <= MaxCompleted(rows, id).value
    ensures MaxCompleted(rows, id).Some?
            ==> exists row <- rows :: CompletedFor(row, id) && row.log.completed == MaxCompleted(rows, id)
  {
    if rows != [] {
      var rest := rows[1..];
      LastCompletedIsLatest(rest, id);
      assert forall row :: row in rows <==> row == rows[0] || row in rest;
      if MaxCompleted(rows, id).Some? && MaxCompleted(rows, id) == MaxCompleted(rest, id) {
        var row :| row in rest && CompletedFor(row, id) && row.log.completed == MaxCompleted(rest, id);
        assert row in rows;
      } else if MaxCompleted(rows, id).Some? {
        assert CompletedFor(rows[0], id);
      }
    }
  }

  predicate HasGroup(rows: seq<Joined>, id: string) {
    exists row <- rows :: row.frequency.Some? && row.log.aggregationId == id
  }

  lemma {:induction false} CountNeedsGroup(rows: seq<Joined>, id: string)
    ensures GroupCount(rows, id, Completed) > 0 ==> HasGroup(rows, id)
  {
    if rows != [] {
      CountNeedsGroup(rows[1..], id);
      assert rows[0] in rows;
      if HasGroup(rows[1..], id) {
        var row :| row in rows[1..] && row.frequency.Some? && row.log.aggregationId == id;
        assert row in rows;
      }
    }
  }

  /** The moment the summary is made, the hours it looks back, and the seconds a job may take. */
  datatype Window = Window(now: int, hours: int, tolerance: int) {
    function Start(): int {
      now - hours * 3600 * MICROSECONDS
    }

    function Expected(spec: Spec): int
      requires ValidSpec(spec)
    {
      ExpectedJobs(now, ScheduleOf(spec), Start(), tolerance * MICROSECONDS)
    }
  }

  /** A tile merged with its group's statistics. */
  function Grouped(spec: Spec, rows: seq<Joined>, w: Window): Row {
    var id := spec.aggregationId;
    if HasGroup(rows, id) then
      Row(id, spec.frequency, 0, Some(GroupCount(rows, id, Completed)), Some(GroupCount(rows, id, Failed)),
          Some(GroupCount(rows, id, Exceeding)), Some(GroupCount(rows, id, Late(w.tolerance)) as real),
          MaxDuration(rows, id), DurationPercentile(rows, id), MaxCompleted(rows, id), 0, None)
    else
      Row(id, spec.frequency, 0, None, None, None, None, None, None, None, 0, None)
  }

  /** The time since the last completion. */
  function SinceLast(last: Option<int>, w: Window): Option<int> {
    if last.Some? then Some(w.now - last.value) else None
  }

  /** The finished row of one tile: counts of a tile that never completed a job are 0. */
  function Summarized(spec: Spec, rows: seq<Joined>, w: Window): Row
    requires ValidSpec(spec)
  {
    var id := spec.aggregationId;
    var completed := GroupCount(rows, id, Completed);
    var expected := w.Expected(spec);
    var failed := if completed == 0 then 0 else GroupCount(rows, id, Failed);
    Row(id, spec.frequency, expected, Some(completed), Some(failed),
        Some(if completed == 0 then 0 else GroupCount(rows, id, Exceeding)),
        if completed == 0 then None else Some(GroupCount(rows, id, Late(w.tolerance)) as real / completed as real),
        MaxDuration(rows, id), DurationPercentile(rows, id),
        MaxCompleted(rows, id), expected - completed - failed, SinceLast(MaxCompleted(rows, id), w))
  }

  function SummaryRows(tiles: seq<Spec>, rows: seq<Joined>, w: Window): seq<Row>
    requires ValidSpecs(tiles)
  {
    seq(|tiles|, i requires 0 <= i < |tiles| => Summarized(tiles[i], rows, w))
  }

  /** What `_compute_feature_jobs_summary` returns. */
  function Summary(logs: seq<Log>, specs: seq<Spec>, w: Window): seq<Row>
    requires ValidSpecs(specs)
  {
    SummaryRows(FirstSpecs(specs), LeftJoin(logs, Distinct(Keys(specs))), w)
  }

  function LastExpected(spec: Spec, w: Window): int
    requires ValidSpec(spec)
  {
    var last := LastJob(w.now, ScheduleOf(spec));
    if w.now - last > w.tolerance * MICROSECONDS && last > w.Start() then 1 else 0
  }

  /** expected_jobs = 1 where the last job should have completed inside the window. */
  method MarkLastJobs(summary: array<Row>, tiles: seq<Spec>, w: Window)
    requires |tiles| == summary.Length && ValidSpecs(tiles)
    requires forall i :: 0 <= i < |tiles| ==> summary[i].expectedJobs == 0
    modifies summary
    ensures forall i :: 0 <= i < |tiles| ==>
              summary[i] == old(summary[i]).(expectedJobs := LastExpected(tiles[i], w))
  {
    for i := 0 to summary.Length
      invariant forall j :: i <= j < summary.Length ==> summary[j] == old(summary[j])
      invariant forall j :: 0 <= j < i ==> summary[j] == old(summary[j]).(expectedJobs := LastExpected(tiles[j], w))
    {
      var last := LastJob(w.now, ScheduleOf(tiles[i]));
      if w.now - last > w.tolerance * MICROSECONDS && last > w.Start() {
        summary[i] := summary[i].(expectedJobs := 1);
      }
    }
  }

  function WholePeriods(spec: Spec, w: Window): int
    requires ValidSpec(spec)
  {
    Max(LastJob(w.now, ScheduleOf(spec)) - w.Start(), 0) / ScheduleOf(spec).period
  }

  /** expected_jobs += whole periods between the window's start and the last job. */
  method AddWholePeriods(summary: array<Row>, tiles: seq<Spec>, w: Window)
    requires |tiles| == summary.Length && ValidSpecs(tiles)
    modifies summary
    ensures forall i :: 0 <= i < |tiles| ==>
              var row := old(summary[i]);
              summary[i] == row.(expectedJobs := row.expectedJobs + WholePeriods(tiles[i], w))
  {
    for i := 0 to summary.Length
      invariant forall j :: i <= j < summary.Length ==> summary[j] == old(summary[j])
      invariant forall j :: 0 <= j < i ==>
                  var row := old(summary[j]);
                  summary[j] == row.(expectedJobs := row.expectedJobs + WholePeriods(tiles[j], w))
    {
      var periods := WholePeriods(tiles[i], w);
      summary[i] := summary[i].(expectedJobs := summary[i].expectedJobs + periods);
    }
  }

  /** Zeroes the counts of a tile without a completed job, turns the number of late jobs into a
      fraction of the completed ones, and takes what is left over. */
  function Finished(row: Row, w: Window): Row {
    var filled :=
      if row.lastCompleted.Some? then row
      else row.(completedJobs := Some(0), exceedPeriod := Some(0), failedJobs := Some(0));
    var completed, failed := filled.completedJobs.GetOr(0), filled.failedJobs.GetOr(0);
    filled.(
      fracLate :=
        if completed == 0 || row.fracLate.None? then None else Some(row.fracLate.value / completed as real),
      incompleteJobs := filled.expectedJobs - completed - failed,
      timeSinceLast := SinceLast(row.lastCompleted, w))
  }

  method FillDefaults(summary: array<Row>, w: Window)
    modifies summary
    ensures forall i :: 0 <= i < summary.Length ==> summary[i] == Finished(old(summary[i]), w)
  {
    for i := 0 to summary.Length
      invariant forall j :: i <= j < summary.Length ==> summary[j] == old(summary[j])
      invariant forall j :: 0 <= j < i ==> summary[j] == Finished(old(summary[j]), w)
    {
      var row := summary[i];
      if row.lastCompleted.None? {
        row := row.(completedJobs := Some(0), exceedPeriod := Some(0), failedJobs := Some(0));
      }
      var completed := row.completedJobs.GetOr(0);
      if completed == 0 {
        row := row.(fracLate := None);
      } else if row.fracLate.Some? {
        row := row.(fracLate := Some(row.fracLate.value / completed as real));
      }
      row := row.(incompleteJobs := row.expectedJobs - completed - row.failedJobs.GetOr(0));
      summary[i] := row.(timeSinceLast := SinceLast(row.lastCompleted, w));
    }
  }

  lemma {:induction false} NoGroupNoDurations(rows: seq<Joined>, id: string)
    ensures !HasGroup(rows, id) ==> MaxDuration(rows, id) == None && DurationsOf(rows, id) == []
  {
    if rows != [] && !HasGroup(rows, id) {
      assert rows[0] in rows;
      forall row | row in rows[1..] ensures row in rows {}
      NoGroupNoDurations(rows[1..], id);
    }
  }

  lemma FinishedIsSummarized(spec: Spec, rows: seq<Joined>, w: Window)
    requires ValidSpec(spec)
    ensures Finished(Grouped(spec, rows, w).(expectedJobs := LastExpected(spec, w) + WholePeriods(spec, w)), w)
            == Summarized(spec, rows, w)
  {
    NoGroupNoDurations(rows, spec.aggregationId);
    LastCompletedIff(rows, spec.aggregationId);
    CountNeedsGroup(rows, spec.aggregationId);
  }

  /** The summary of tiles and joined rows, column by column and in place. */
  method FillSummary(tiles: seq<Spec>, rows: seq<Joined>, w: Window) returns (summary: array<Row>)
    requires ValidSpecs(tiles)
    ensures fresh(summary) && summary[..] == SummaryRows(tiles, rows, w)
  {
    // the grouped statistics, merged into the tiles, and expected_jobs = 0
    summary := new Row[|tiles|](i requires 0 <= i < |tiles| => Grouped(tiles[i], rows, w));
    MarkLastJobs(summary, tiles, w);
    AddWholePeriods(summary, tiles, w);
    FillDefaults(summary, w);
    forall i | 0 <= i < |tiles| ensures summary[i] == Summarized(tiles[i], rows, w) {
      FinishedIsSummarized(tiles[i], rows, w);
    }
  }

  method ComputeFeatureJobsSummary(logs: seq<Log>, specs: seq<Spec>, w: Window) returns (summary: array<Row>)
    requires ValidSpecs(specs)
    ensures fresh(summary) && summary[..] == Summary(logs, specs, w)
  {
    summary := FillSummary(FirstSpecs(specs), LeftJoin(logs, Distinct(Keys(specs))), w);
  }

  lemma {:induction false} CountsAmongCompleted(rows: seq<Joined>, id: string, kind: Kind)
    requires forall row <- rows :: row.log.duration.Some? ==> row.log.completed.Some?
    requires kind.Late? || kind.Exceeding?
    ensures GroupCount(rows, id, kind) <= GroupCount(rows, id, Completed)
  {
    if rows != [] {
      assert rows[0] in rows;
      CountsAmongCompleted(rows[1..], id, kind);
    }
  }

  lemma {:induction false} JoinedAreLogs(logs: seq<Log>, keys: seq<Key>)
    ensures forall row <- LeftJoin(logs, keys) :: row.log in logs
  {
    if logs != [] {
      JoinedAreLogs(logs[1..], keys);
      MatchesCount(logs[0], keys);
    }
  }

  lemma Quotient(n: nat, d: nat)
    requires n <= d
    ensures d > 0 ==> 0.0 <= n as real / d as real <= 1.0
  {
  }

  /** Every row of the summary: late jobs and jobs longer than the period are among the completed
      ones, and their share is a fraction, missing exactly when nothing completed. */
  lemma FractionsAreFractions(logs: seq<Log>, specs: seq<Spec>, w: Window, i: nat)
    requires ValidSpecs(specs) && ValidLogs(logs) && i < |Summary(logs, specs, w)|
    ensures var row := Summary(logs, specs, w)[i];
            && row.completedJobs.Some? && row.exceedPeriod.Some? && row.failedJobs.Some?
            && 0 <= row.exceedPeriod.value <= row.completedJobs.value
            && (row.fracLate.Some? <==> row.completedJobs.value > 0)
            && (row.fracLate.Some? ==> 0.0 <= row.fracLate.value <= 1.0)
            && (row.lastCompleted.Some? <==> row.completedJobs.value > 0)
  {
    var keys := Distinct(Keys(specs));
    var rows, id := LeftJoin(logs, keys), FirstSpecs(specs)[i].aggregationId;
    JoinedAreLogs(logs, keys);
    forall row | row in rows ensures row.log.duration.Some? ==> row.log.completed.Some? {
      var k :| 0 <= k < |logs| && logs[k] == row.log;
    }
    CountsAmongCompleted(rows, id, Exceeding);
    CountsAmongCompleted(rows, id, Late(w.tolerance));
    LastCompletedIff(rows, id);
    Quotient(GroupCount(rows, id, Late(w.tolerance)), GroupCount(rows, id, Completed));
  }

  function Sum(summary: seq<Row>, kind: Kind): int
    requires kind.Completed? || kind.Failed?
  {
    if summary == [] then 0
    else
      (if kind.Completed? then summary[0].completedJobs else summary[0].failedJobs).GetOr(0)
      + Sum(summary[1..], kind)
  }

  /** Sum of one count over the tiles that completed a job. */
  function Total(tiles: seq<Spec>, rows: seq<Joined>, kind: Kind): int {
    if tiles == [] then 0
    else
      var id := tiles[0].aggregationId;
      (if GroupCount(rows, id, Completed) > 0 then GroupCount(rows, id, kind) else 0) + Total(tiles[1..], rows, kind)
  }

  /** `Total` is the sum over the rows of the summary. */
  lemma {:induction false} TotalIsSum(tiles: seq<Spec>, rows: seq<Joined>, w: Window)
    requires ValidSpecs(tiles)
    ensures Sum(SummaryRows(tiles, rows, w), Completed) == Total(tiles, rows, Completed)
    ensures Sum(SummaryRows(tiles, rows, w), Failed) == Total(tiles, rows, Failed)
  {
    if tiles != [] {
      TotalIsSum(tiles[1..], rows, w);
      assert SummaryRows(tiles, rows, w)[1..] == SummaryRows(tiles[1..], rows, w);
    }
  }

  /** The logs of a kind whose aggregation id is in `ids`. */
  function LogsIn(logs: seq<Log>, ids: seq<string>, kind: Kind): nat {
    if logs == [] then 0
    else
      (if logs[0].aggregationId in ids && kind.Counts(logs[0], None) then 1 else 0) + LogsIn(logs[1..], ids, kind)
  }

  lemma {:induction false} LogsInSplit(logs: seq<Log>, ids: seq<string>, kind: Kind)
    requires ids != [] && ids[0] !in ids[1..]
    ensures LogsIn(logs, ids, kind) == LogCount(logs, ids[0], kind) + LogsIn(logs, ids[1..], kind)
  {
    if logs != [] {
      LogsInSplit(logs[1..], ids, kind);
      assert forall x :: x in ids <==> x == ids[0] || x in ids[1..];
    }
  }

  lemma {:induction false} LogsInNone(logs: seq<Log>, kind: Kind)
    ensures LogsIn(logs, [], kind) == 0
  {
    if logs != [] { LogsInNone(logs[1..], kind); }
  }

  lemma {:induction false} SameIds(logs: seq<Log>, a: seq<string>, b: seq<string>, kind: Kind)
    requires forall x :: x in a <==> x in b
    ensures LogsIn(logs, a, kind) == LogsIn(logs, b, kind)
  {
    if logs != [] { SameIds(logs[1..], a, b, kind); }
  }

  /** A tile whose failures the default fill hides: failed jobs, and none completed. */
  predicate HidesFailures(logs: seq<Log>, id: string) {
    LogCount(logs, id, Completed) == 0 && LogCount(logs, id, Failed) > 0
  }

  lemma GroupOfOneKey(logs: seq<Log>, keys: seq<Key>, id: string, kind: Kind)
    requires KeyCount(keys, id) == 1 && !kind.Exceeding?
    ensures GroupCount(LeftJoin(logs, keys), id, kind) == LogCount(logs, id, kind)
  {
    GroupCountIsMultiple(logs, keys, id, kind);
  }

  /** With one frequency a tile, the joined rows of a known tile are its logs. */
  lemma GroupIsLogs(logs: seq<Log>, specs: seq<Spec>, id: string, kind: Kind)
    requires OneFrequency(specs) && id in Ids(specs) && !kind.Exceeding?
    ensures GroupCount(LeftJoin(logs, Distinct(Keys(specs))), id, kind) == LogCount(logs, id, kind)
  {
    KeysOfSpecs(specs, id);
    GroupOfOneKey(logs, Distinct(Keys(specs)), id, kind);
  }

  lemma {:induction false} TotalsConserve(logs: seq<Log>, specs: seq<Spec>, tiles: seq<Spec>)
    requires OneFrequency(specs) && (forall id <- Ids(tiles) :: id in Ids(specs))
    requires NoDuplicates(Ids(tiles))
    ensures var rows := LeftJoin(logs, Distinct(Keys(specs)));
            && Total(tiles, rows, Completed) == LogsIn(logs, Ids(tiles), Completed)
            && Total(tiles, rows, Failed) <= LogsIn(logs, Ids(tiles), Failed)
            && (Total(tiles, rows, Failed) == LogsIn(logs, Ids(tiles), Failed)
                <==> forall id <- Ids(tiles) :: !HidesFailures(logs, id))
  {
    var ids := Ids(tiles);
    if tiles == [] {
      LogsInNone(logs, Completed);
      LogsInNone(logs, Failed);
    } else {
      var id := tiles[0].aggregationId;
      assert ids[0] == id && ids[1..] == Ids(tiles[1..]);
      assert forall x :: x in ids <==> x == id || x in ids[1..];
      TotalsConserve(logs, specs, tiles[1..]);
      GroupIsLogs(logs, specs, id, Completed);
      GroupIsLogs(logs, specs, id, Failed);
      LogsInSplit(logs, ids, Completed);
      LogsInSplit(logs, ids, Failed);
    }
  }

  /** Conservation: one row per aggregation id; the completed jobs of the summary are the completed
      logs of known tiles; the failed jobs are too, unless some tile failed and never completed. */
  lemma SummaryConservesLogs(logs: seq<Log>, specs: seq<Spec>, w: Window)
    requires OneFrequency(specs) && ValidSpecs(specs)
    ensures var summary, ids := Summary(logs, specs, w), Ids(specs);
            && |summary| == |Distinct(ids)|
            && (forall i :: 0 <= i < |summary| ==> summary[i].aggregationId == Distinct(ids)[i])
            && Sum(summary, Completed) == LogsIn(logs, ids, Completed)
            && (Sum(summary, Failed) == LogsIn(logs, ids, Failed) <==> forall id <- ids :: !HidesFailures(logs, id))
  {
    var tiles := FirstSpecs(specs);
    FirstSpecsAreDistinct(specs);
    assert forall i :: 0 <= i < |tiles| ==> Ids(tiles)[i] == tiles[i].aggregationId;
    TotalsConserve(logs, specs, tiles);
    TotalIsSum(tiles, LeftJoin(logs, Distinct(Keys(specs))), w);
    SameIds(logs, Ids(specs), Ids(tiles), Completed);
    SameIds(logs, Ids(specs), Ids(tiles), Failed);
  }

  /** A tile whose only job failed: the summary reports no failure. */
  lemma FailureIsHidden(log: Log, spec: Spec, w: Window)
    requires ValidSpec(spec) && log.aggregationId == spec.aggregationId && log.completed.None? && log.error.Some?
    ensures LogsIn([log], Ids([spec]), Failed) == 1
    ensures Sum(Summary([log], [spec], w), Failed) == 0
  {
    var logs, specs, id := [log], [spec], spec.aggregationId;
    var rows := LeftJoin(logs, Distinct(Keys(specs)));
    assert logs[1..] == [] && specs[1..] == [] && specs[..0] == [];
    assert Ids(specs) == [id] && FirstSpecs(specs) == specs;
    assert LogCount(logs, id, Completed) == 0;
    GroupIsLogs(logs, specs, id, Completed);
    assert Total(specs, rows, Failed) == 0;
    TotalIsSum(specs, rows, w);
  }

  /** One failed job of a tile that never completed one: the summary reports no failure. */
  lemma HiddenFailure(w: Window)
    ensures exists logs, specs: seq<Spec> ::
              && OneFrequency(specs) && ValidSpecs(specs) && ValidLogs(logs)
              && LogsIn(logs, Ids(specs), Failed) == 1 && Sum(Summary(logs, specs, w), Failed) == 0
  {
    var log, spec := Log("tile", None, Some("timeout"), None), Spec("feature", "tile", 60, 0);
    FailureIsHidden(log, spec, w);
    assert OneFrequency([spec]) && ValidSpecs([spec]) && ValidLogs([log]);
  }
}
