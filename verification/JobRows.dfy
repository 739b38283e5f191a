/** What every number of the job summary means in terms of the logs and the schedule, for tiles of one
    frequency (featurebyte/api/feature_job.py). */
module JobRows {
  import opened Wrappers
  import opened Sequences
  import opened JobSchedule
  import opened JobSummary

  /** The logs of a tile, by position: those that completed, that failed, and that took longer. */
  function CompletedLogs(logs: seq<Log>, id: string): set<int> {
    set k | 0 <= k < |logs| && logs[k].aggregationId == id && logs[k].completed.Some?
  }

  function FailedLogs(logs: seq<Log>, id: string): set<int> {
    set k | 0 <= k < |logs| && logs[k].aggregationId == id && logs[k].error.Some?
  }

  function LongerLogs(logs: seq<Log>, id: string, seconds: int): set<int> {
    set k | 0 <= k < |logs| && logs[k].aggregationId == id
            && logs[k].duration.Some? && logs[k].duration.value > seconds
  }

  function Hits(logs: seq<Log>, id: string, kind: Kind): set<int> {
    set k | 0 <= k < |logs| && logs[k].aggregationId == id && kind.Counts(logs[k], None)
  }

  lemma {:induction false} LogCountAppends(a: seq<Log>, b: seq<Log>, id: string, kind: Kind)
    ensures LogCount(a + b, id, kind) == LogCount(a, id, kind) + LogCount(b, id, kind)
  {
    if a == [] {
      assert a + b == b;
    } else {
      assert (a + b)[1..] == a[1..] + b;
      LogCountAppends(a[1..], b, id, kind);
    }
  }

  lemma HitsOneMore(logs: seq<Log>, log: Log, id: string, kind: Kind)
    ensures Hits(logs + [log], id, kind)
            == Hits(logs, id, kind)
               + if log.aggregationId == id && kind.Counts(log, None) then {|logs|} else {}
  {
    var more := logs + [log];
    assert forall k :: 0 <= k < |logs| ==> more[k] == logs[k];
    assert more[|logs|] == log;
  }

  lemma {:induction false} LogCountIsHits(logs: seq<Log>, id: string, kind: Kind)
    ensures LogCount(logs, id, kind) == |Hits(logs, id, kind)|
  {
    if logs != [] {
      var n := |logs| - 1;
      LogCountIsHits(logs[..n], id, kind);
      LogCountAppends(logs[..n], [logs[n]], id, kind);
      HitsOneMore(logs[..n], logs[n], id, kind);
      assert logs[..n] + [logs[n]] == logs && [logs[n]][1..] == [];
    }
  }

  /** Every joined row carries its log's tile and a frequency of that tile. */
  predicate JoinedFor(row: Joined, frequency: int, id: string) {
    row.log.aggregationId == id && row.frequency.Some? ==> row.frequency.value == frequency
  }

  lemma {:induction false} MatchesCarry(log: Log, keys: seq<Key>, frequency: int, id: string)
    requires forall key <- keys :: key.aggregationId == id ==> key.frequency == frequency
    ensures forall row <- Matches(log, keys) :: JoinedFor(row, frequency, id) && row.log == log
  {
    if keys != [] {
      assert keys[0] in keys;
      MatchesCarry(log, keys[1..], frequency, id);
    }
  }

  lemma {:induction false} JoinCarries(logs: seq<Log>, keys: seq<Key>, frequency: int, id: string)
    requires forall key <- keys :: key.aggregationId == id ==> key.frequency == frequency
    ensures forall row <- LeftJoin(logs, keys) :: JoinedFor(row, frequency, id)
  {
    if logs != [] {
      MatchesCarry(logs[0], keys, frequency, id);
      JoinCarries(logs[1..], keys, frequency, id);
    }
  }

  /** Of rows of one frequency those over their period are those over that many seconds. */
  lemma {:induction false} ExceedingIsLate(rows: seq<Joined>, frequency: int, id: string)
    requires forall row <- rows :: JoinedFor(row, frequency, id)
    ensures GroupCount(rows, id, Exceeding) == GroupCount(rows, id, Late(frequency * 60))
  {
    if rows != [] {
      assert rows[0] in rows;
      ExceedingIsLate(rows[1..], frequency, id);
    }
  }

  /** The j-th spec is the first of its tile, whose id carries one frequency; row i is the tile's. */
  ghost predicate RowOf(specs: seq<Spec>, logs: seq<Log>, w: Window, i: nat, j: nat)
    requires ValidSpecs(specs)
  {
    && OneFrequency(specs) && j < |specs|
    && (forall k :: 0 <= k < j ==> specs[k].aggregationId != specs[j].aggregationId)
    && i < |Summary(logs, specs, w)| && Summary(logs, specs, w)[i].aggregationId == specs[j].aggregationId
  }

  lemma RowIsSummarized(specs: seq<Spec>, logs: seq<Log>, w: Window, i: nat, j: nat)
    requires ValidSpecs(specs) && RowOf(specs, logs, w, i, j)
    ensures Summary(logs, specs, w)[i] == Summarized(specs[j], LeftJoin(logs, Distinct(Keys(specs))), w)
    ensures specs[j].aggregationId in Ids(specs)
  {
    var spec := FirstSpecs(specs)[i];
    FirstSpecsAreFirst(specs);
    assert spec in FirstSpecs(specs);
    var k :| 0 <= k < |specs| && specs[k] == spec
             && forall l :: 0 <= l < k ==> specs[l].aggregationId != spec.aggregationId;
    assert k == j;
    assert Ids(specs)[j] == specs[j].aggregationId;
  }

  /** One row for every tile of the specs. */
  lemma EveryTileHasARow(specs: seq<Spec>, logs: seq<Log>, w: Window, j: nat)
    requires ValidSpecs(specs) && j < |specs|
    ensures exists i :: 0 <= i < |Summary(logs, specs, w)|
              && Summary(logs, specs, w)[i].aggregationId == specs[j].aggregationId
    ensures forall i, k :: 0 <= i < k < |Summary(logs, specs, w)| ==>
              Summary(logs, specs, w)[i].aggregationId != Summary(logs, specs, w)[k].aggregationId
  {
    FirstSpecsAreDistinct(specs);
    var ids, tiles := Ids(specs), FirstSpecs(specs);
    assert forall i :: 0 <= i < |tiles| ==> Ids(tiles)[i] == tiles[i].aggregationId;
    assert ids[j] in Distinct(ids);
    var i :| 0 <= i < |Ids(tiles)| && Ids(tiles)[i] == ids[j];
    assert Summary(logs, specs, w)[i].aggregationId == specs[j].aggregationId;
  }

  /** The first of two values kept is mentioned before any mention of the second. */
  lemma {:induction false} DistinctInOrder(xs: seq<string>, i: nat, k: nat) returns (j: nat)
    requires i < k < |Distinct(xs)|
    ensures j < |xs| && xs[j] == Distinct(xs)[i] && forall l :: 0 <= l <= j ==> xs[l] != Distinct(xs)[k]
  {
    var n := |xs| - 1;
    var front := xs[..n];
    if k < |Distinct(front)| {
      j := DistinctInOrder(front, i, k);
      assert forall l :: 0 <= l < n ==> front[l] == xs[l];
    } else {
      assert Distinct(front)[i] in front;
      j :| 0 <= j < n && front[j] == Distinct(front)[i];
      forall l | 0 <= l <= j ensures xs[l] != Distinct(xs)[k] {
        assert xs[l] == front[l] && front[l] in front;
      }
    }
  }

  /** The rows are in the order in which the specs mention their tiles first. */
  lemma RowsInOrder(specs: seq<Spec>, logs: seq<Log>, w: Window, i: nat, k: nat)
    requires ValidSpecs(specs) && i < k < |Summary(logs, specs, w)|
    ensures exists j :: 0 <= j < |specs| && specs[j].aggregationId == Summary(logs, specs, w)[i].aggregationId
              && forall l :: 0 <= l <= j ==> specs[l].aggregationId != Summary(logs, specs, w)[k].aggregationId
  {
    FirstSpecsAreDistinct(specs);
    var ids, tiles := Ids(specs), FirstSpecs(specs);
    assert Ids(tiles)[i] == tiles[i].aggregationId && Ids(tiles)[k] == tiles[k].aggregationId;
    var j := DistinctInOrder(ids, i, k);
    assert forall l :: 0 <= l < |specs| ==> specs[l].aggregationId == ids[l];
    assert specs[j].aggregationId == Summary(logs, specs, w)[i].aggregationId;
  }

  lemma CountIsHits(logs: seq<Log>, specs: seq<Spec>, id: string, kind: Kind)
    requires OneFrequency(specs) && id in Ids(specs) && !kind.Exceeding?
    ensures GroupCount(LeftJoin(logs, Distinct(Keys(specs))), id, kind) == |Hits(logs, id, kind)|
  {
    GroupIsLogs(logs, specs, id, kind);
    LogCountIsHits(logs, id, kind);
  }

  /** The counts of a row: completed logs; failed ones, ones over the period and the share of late ones,
      the last three with their defaults where nothing completed. */
  lemma RowCounts(specs: seq<Spec>, logs: seq<Log>, w: Window, i: nat, j: nat)
    requires ValidSpecs(specs) && RowOf(specs, logs, w, i, j)
    ensures var row, id, frequency := Summary(logs, specs, w)[i], specs[j].aggregationId, specs[j].frequency;
            var completed := |CompletedLogs(logs, id)|;
            && row.frequency == frequency
            && row.completedJobs == Some(completed)
            && row.failedJobs == Some(if completed == 0 then 0 else |FailedLogs(logs, id)|)
            && row.exceedPeriod == Some(if completed == 0 then 0 else |LongerLogs(logs, id, frequency * 60)|)
            && row.fracLate == (if completed == 0 then None
                                else Some(|LongerLogs(logs, id, w.tolerance)| as real / completed as real))
  {
    var id, frequency, keys := specs[j].aggregationId, specs[j].frequency, Distinct(Keys(specs));
    var rows := LeftJoin(logs, keys);
    RowIsSummarized(specs, logs, w, i, j);
    forall key | key in keys && key.aggregationId == id ensures key.frequency == frequency {
      var k :| 0 <= k < |specs| && Keys(specs)[k] == key;
    }
    JoinCarries(logs, keys, frequency, id);
    ExceedingIsLate(rows, frequency, id);
    CountIsHits(logs, specs, id, Completed);
    CountIsHits(logs, specs, id, Failed);
    CountIsHits(logs, specs, id, Late(w.tolerance));
    CountIsHits(logs, specs, id, Late(frequency * 60));
    assert Hits(logs, id, Completed) == CompletedLogs(logs, id);
    assert Hits(logs, id, Failed) == FailedLogs(logs, id);
    assert Hits(logs, id, Late(w.tolerance)) == LongerLogs(logs, id, w.tolerance);
    assert Hits(logs, id, Late(frequency * 60)) == LongerLogs(logs, id, frequency * 60);
  }

  /** `value` is the largest of the values the logs of the tile have, and missing if none has one. */
  ghost predicate IsLargest(logs: seq<Log>, id: string, value: Option<int>, of: Log -> Option<int>) {
    && (forall k :: 0 <= k < |logs| && logs[k].aggregationId == id && of(logs[k]).Some?
          ==> value.Some? && of(logs[k]).value <= value.value)
    && (value.Some? ==> exists k :: 0 <= k < |logs| && logs[k].aggregationId == id && of(logs[k]) == value)
  }

  lemma {:induction false} MaxDurationIsLargest(rows: seq<Joined>, id: string)
    ensures forall row <- rows :: row.frequency.Some? && row.log.aggregationId == id && row.log.duration.Some?
              ==> MaxDuration(rows, id).Some? && row.log.duration.value <= MaxDuration(rows, id).value
    ensures MaxDuration(rows, id).Some? ==> exists row <- rows ::
              row.frequency.Some? && row.log.aggregationId == id && row.log.duration == MaxDuration(rows, id)
  {
    if rows != [] {
      var rest := rows[1..];
      MaxDurationIsLargest(rest, id);
      assert forall row :: row in rows <==> row == rows[0] || row in rest;
      if MaxDuration(rest, id).Some? && MaxDuration(rows, id) == MaxDuration(rest, id) {
        var row :| row in rest && row.frequency.Some? && row.log.aggregationId == id
                   && row.log.duration == MaxDuration(rest, id);
        assert row in rows;
      }
    }
  }

  lemma LargestDuration(specs: seq<Spec>, logs: seq<Log>, id: string)
    requires OneFrequency(specs) && id in Ids(specs)
    ensures IsLargest(logs, id, MaxDuration(LeftJoin(logs, Distinct(Keys(specs))), id), (log: Log) => log.duration)
  {
    var rows := LeftJoin(logs, Distinct(Keys(specs)));
    JoinKeepsRows(logs, specs);
    MaxDurationIsLargest(rows, id);
    var largest := MaxDuration(rows, id);
    forall k | 0 <= k < |logs| && logs[k].aggregationId == id && logs[k].duration.Some?
      ensures largest.Some? && logs[k].duration.value <= largest.value
    {
      assert rows[k] in rows;
    }
    if largest.Some? {
      var row :| row in rows && row.frequency.Some? && row.log.aggregationId == id && row.log.duration == largest;
      var k :| 0 <= k < |rows| && rows[k] == row;
      assert logs[k].aggregationId == id && logs[k].duration == largest;
    }
  }

  lemma LatestCompletion(specs: seq<Spec>, logs: seq<Log>, id: string)
    requires OneFrequency(specs) && id in Ids(specs)
    ensures IsLargest(logs, id, MaxCompleted(LeftJoin(logs, Distinct(Keys(specs))), id), (log: Log) => log.completed)
  {
    var rows := LeftJoin(logs, Distinct(Keys(specs)));
    JoinKeepsRows(logs, specs);
    LastCompletedIsLatest(rows, id);
    var latest := MaxCompleted(rows, id);
    forall k | 0 <= k < |logs| && logs[k].aggregationId == id && logs[k].completed.Some?
      ensures latest.Some? && logs[k].completed.value <= latest.value
    {
      assert rows[k] in rows && CompletedFor(rows[k], id);
    }
    if latest.Some? {
      var row :| row in rows && CompletedFor(row, id) && row.log.completed == latest;
      var k :| 0 <= k < |rows| && rows[k] == row;
      assert logs[k].aggregationId == id && logs[k].completed == latest;
    }
  }

  /** The largest duration and the latest completion are those of the tile's logs. */
  lemma RowMaxima(specs: seq<Spec>, logs: seq<Log>, w: Window, i: nat, j: nat)
    requires ValidSpecs(specs) && RowOf(specs, logs, w, i, j)
    ensures var row, id := Summary(logs, specs, w)[i], specs[j].aggregationId;
            && IsLargest(logs, id, row.maxDuration, (log: Log) => log.duration)
            && IsLargest(logs, id, row.lastCompleted, (log: Log) => log.completed)
  {
    RowIsSummarized(specs, logs, w, i, j);
    LargestDuration(specs, logs, specs[j].aggregationId);
    LatestCompletion(specs, logs, specs[j].aggregationId);
  }

  /** The time since the last completion and the jobs left over follow from the other columns. */
  lemma RowRemainders(specs: seq<Spec>, logs: seq<Log>, w: Window, i: nat)
    requires ValidSpecs(specs) && i < |Summary(logs, specs, w)|
    ensures var row := Summary(logs, specs, w)[i];
            && row.timeSinceLast == (if row.lastCompleted.Some? then Some(w.now - row.lastCompleted.value) else None)
            && row.completedJobs.Some? && row.failedJobs.Some?
            && row.incompleteJobs == row.expectedJobs - row.completedJobs.value - row.failedJobs.value
  {
  }

  /** The durations of a tile's logs, in order. */
  function TileDurations(logs: seq<Log>, id: string): seq<int> {
    if logs == [] then []
    else if logs[0].aggregationId == id && logs[0].duration.Some? then
      [logs[0].duration.value] + TileDurations(logs[1..], id)
    else TileDurations(logs[1..], id)
  }

  lemma {:induction false} DurationsAreTheTiles(logs: seq<Log>, keys: seq<Key>, id: string)
    requires (forall log <- logs :: OneKey(keys, log)) && KeyCount(keys, id) == 1
    ensures DurationsOf(LeftJoin(logs, keys), id) == TileDurations(logs, id)
  {
    if logs != [] {
      assert logs[0] in logs;
      JoinStep(logs, keys);
      JoinOneKeeps(logs[0], keys);
      var row, rest := OnlyRow(logs[0], keys), LeftJoin(logs[1..], keys);
      assert ([row] + rest)[1..] == rest;
      DurationsAreTheTiles(logs[1..], keys, id);
    }
  }

  lemma TailValues(xs: seq<int>)
    requires xs != []
    ensures multiset(xs[1..]) == multiset(xs) - multiset{xs[0]}
  {
    assert xs == [xs[0]] + xs[1..];
  }

  lemma LeastIn(a: seq<int>, b: seq<int>)
    requires Ascending(b) && a != [] && b != [] && multiset(a) == multiset(b)
    ensures b[0] <= a[0]
  {
    assert a[0] in multiset(b);
    var k :| 0 <= k < |b| && b[k] == a[0];
  }

  /** Two ascending sequences of the same values are one. */
  lemma {:induction false} SameOrder(a: seq<int>, b: seq<int>)
    requires Ascending(a) && Ascending(b) && multiset(a) == multiset(b)
    ensures a == b
  {
    assert |a| == |multiset(a)| == |multiset(b)| == |b|;
    if a != [] {
      LeastIn(a, b);
      LeastIn(b, a);
      TailValues(a);
      TailValues(b);
      SameOrder(a[1..], b[1..]);
      assert a == [a[0]] + a[1..] && b == [b[0]] + b[1..];
    }
  }

  lemma PercentileOf(sorted: seq<int>)
    ensures var p, n := Percentile95(sorted), |sorted| - 1;
            && (p.None? <==> sorted == [])
            && (sorted != [] ==>
                  var k, part := 95 * n / 100, 95 * n % 100;
                  p.value == sorted[k] as real
                             + (if k < n then (sorted[k + 1] - sorted[k]) as real * (part as real / 100.0) else 0.0))
  {
  }

  lemma PercentileColumn(specs: seq<Spec>, logs: seq<Log>, id: string)
    requires OneFrequency(specs) && id in Ids(specs)
    ensures DurationPercentile(LeftJoin(logs, Distinct(Keys(specs))), id)
            == Percentile95(Sorted(TileDurations(logs, id)))
  {
    var keys := Distinct(Keys(specs));
    forall log | log in logs ensures OneKey(keys, log) {
      KeysOfSpecs(specs, log.aggregationId);
    }
    KeysOfSpecs(specs, id);
    DurationsAreTheTiles(logs, keys, id);
  }

  /** The 95th percentile: of the tile's durations in ascending order, the value 95 hundredths of the way
      from the first to the last, on the line between its two neighbours. */
  lemma RowPercentile(specs: seq<Spec>, logs: seq<Log>, w: Window, i: nat, j: nat, sorted: seq<int>)
    requires ValidSpecs(specs) && RowOf(specs, logs, w, i, j)
    requires Ascending(sorted) && multiset(sorted) == multiset(TileDurations(logs, specs[j].aggregationId))
    ensures var p, n := Summary(logs, specs, w)[i].percentile95, |sorted| - 1;
            && (p.None? <==> sorted == [])
            && (sorted != [] ==>
                  var k, part := 95 * n / 100, 95 * n % 100;
                  p.value == sorted[k] as real
                             + (if k < n then (sorted[k + 1] - sorted[k]) as real * (part as real / 100.0) else 0.0))
  {
    RowIsSummarized(specs, logs, w, i, j);
    PercentileColumn(specs, logs, specs[j].aggregationId);
    SortedAscends(TileDurations(logs, specs[j].aggregationId));
    SameOrder(sorted, Sorted(TileDurations(logs, specs[j].aggregationId)));
    PercentileOf(sorted);
  }

  /** A time of the schedule. */
  predicate OnTime(t: int, offset: int, period: int)
    requires period > 0
  {
    (t - offset) % period == 0
  }

  /** The closed form for the schedule of that period and offset. */
  lemma ExpectedOnTime(now: int, start: int, tolerance: int, period: int, offset: int, last: int)
    requires Schedule(period, offset).Valid() && OnTime(last, offset, period) && last <= now < last + period
    ensures ExpectedJobs(now, Schedule(period, offset), start, tolerance)
            == |set t | start <= t < last && OnTime(t, offset, period)|
               + if now - last > tolerance && last > start then 1 else 0
  {
    var s := Schedule(period, offset);
    ExpectedJobsIsCount(now, s, start, tolerance);
    var latest := LastJob(now, s);
    if latest < last { NoneBetween(s, latest, last); }
    if last < latest { NoneBetween(s, last, latest); }
    assert JobsIn(s, start, last) == set t | start <= t < last && OnTime(t, offset, period);
  }

  /** The expected jobs: with the times of the tile's schedule, every frequency minutes at the offset in
      seconds, those from the start of the window up to the last one, and that one if it is inside and
      older than the tolerance. */
  lemma RowExpected(specs: seq<Spec>, logs: seq<Log>, w: Window, i: nat, j: nat, last: int)
    requires ValidSpecs(specs) && RowOf(specs, logs, w, i, j)
    requires var period, offset := specs[j].frequency * 60_000_000, specs[j].offset * 1_000_000;
             OnTime(last, offset, period) && last <= w.now < last + period
    ensures var period, offset := specs[j].frequency * 60_000_000, specs[j].offset * 1_000_000;
            var start := w.now - w.hours * 3_600_000_000;
            Summary(logs, specs, w)[i].expectedJobs
            == |set t | start <= t < last && OnTime(t, offset, period)|
               + if w.now - last > w.tolerance * 1_000_000 && last > start then 1 else 0
  {
    var period, offset := specs[j].frequency * 60_000_000, specs[j].offset * 1_000_000;
    RowIsSummarized(specs, logs, w, i, j);
    assert ScheduleOf(specs[j]) == Schedule(period, offset);
    ExpectedOnTime(w.now, w.now - w.hours * 3_600_000_000, w.tolerance * 1_000_000, period, offset, last);
  }
}
