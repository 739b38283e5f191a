/** How many feature jobs a history window should hold (featurebyte/api/feature_job.py), against the
    unbounded periodic schedule of featurebyte/common/date_util.py. Times are whole microseconds. */
module JobSchedule {
  import opened Arithmetic

  /** Period and offset of a tile's jobs; the offset may equal the period. */
  datatype Schedule = Schedule(period: int, offset: int) {
    predicate Valid() {
      0 < period && 0 <= offset <= period
    }
    predicate Scheduled(t: int)
      requires Valid()
    {
      (t - offset) % period == 0
    }
  }

  /** `get_next_job_datetime` */
  function NextJob(now: int, s: Schedule): int
    requires s.Valid()
  {
    var inPeriod := now / s.period * s.period + s.offset;
    var next := if now % s.period > s.offset then inPeriod + s.period else inPeriod;
    if now == next then next + s.period else next
  }

  function LastJob(now: int, s: Schedule): int
    requires s.Valid()
  {
    NextJob(now, s) - s.period
  }

  /** The closed form: whole periods between the window's start and the last job, plus the last job
      itself when it lies inside the window and had longer than the tolerance to finish. */
  function ExpectedJobs(now: int, s: Schedule, windowStart: int, tolerance: int): int
    requires s.Valid()
  {
    var last := LastJob(now, s);
    var lastExpected := if now - last > tolerance && last > windowStart then 1 else 0;
    lastExpected + Max(last - windowStart, 0) / s.period
  }

  /** Scheduled times differ by whole periods, and only those do. */
  lemma ScheduledApart(s: Schedule, t: int, u: int)
    requires s.Valid() && s.Scheduled(t)
    ensures s.Scheduled(u) <==> (u - t) % s.period == 0
  {
    var a, d := (t - s.offset) / s.period, s.period;
    assert t - s.offset == a * d;
    if s.Scheduled(u) {
      var b := (u - s.offset) / d;
      assert u - t == (b - a) * d;
      MultipleMod(b - a, d);
    }
    if (u - t) % d == 0 {
      var c := (u - t) / d;
      assert u - s.offset == (a + c) * d;
      MultipleMod(a + c, d);
    }
  }

  lemma ShiftScheduled(s: Schedule, t: int, k: int)
    requires s.Valid() && s.Scheduled(t)
    ensures s.Scheduled(t + k * s.period)
  {
    MultipleMod(k, s.period);
    ScheduledApart(s, t, t + k * s.period);
  }

  lemma NoneBetween(s: Schedule, t: int, u: int)
    requires s.Valid() && s.Scheduled(t) && s.Scheduled(u) && t < u
    ensures t + s.period <= u
  {
    ScheduledApart(s, t, u);
    var c := (u - t) / s.period;
    assert u - t == c * s.period;
    assert c >= 1;
  }

  /** Period k's job: the scheduled time at that period's start plus the offset. */
  lemma PeriodJob(s: Schedule, k: int)
    requires s.Valid()
    ensures s.Scheduled(k * s.period + s.offset)
  {
    MultipleMod(k, s.period);
  }

  /** The next job is the least scheduled time strictly after now. */
  lemma NextJobIsLeast(now: int, s: Schedule)
    requires s.Valid()
    ensures s.Scheduled(NextJob(now, s)) && now < NextJob(now, s) <= now + s.period
    ensures forall t :: s.Scheduled(t) && now < t ==> NextJob(now, s) <= t
  {
    var next, k := NextJob(now, s), now / s.period;
    assert now == k * s.period + now % s.period;
    PeriodJob(s, k);
    ShiftScheduled(s, k * s.period + s.offset, 1);
    ShiftScheduled(s, k * s.period + s.offset, 2);
    forall t | s.Scheduled(t) && now < t ensures next <= t {
      if t < next {
        NoneBetween(s, t, next);
      }
    }
  }

  /** The scheduled times t with from <= t < to, all of them, listed by brute force. */
  ghost function JobsIn(s: Schedule, from: int, to: int): set<int>
    requires s.Valid()
  {
    set t | from <= t < to && s.Scheduled(t)
  }

  /** The jobs the tolerance has run out for: started in the window, older than the tolerance. */
  ghost function OverdueJobs(s: Schedule, windowStart: int, now: int, tolerance: int): set<int>
    requires s.Valid()
  {
    set t | windowStart <= t <= now && s.Scheduled(t) && now - t > tolerance
  }

  lemma OneMoreJob(s: Schedule, windowStart: int, job: int)
    requires s.Valid() && s.Scheduled(job) && windowStart <= job
    ensures JobsIn(s, windowStart, job + s.period) == JobsIn(s, windowStart, job) + {job}
  {
    forall t | t in JobsIn(s, windowStart, job + s.period) ensures t in JobsIn(s, windowStart, job) + {job} {
      if job < t { NoneBetween(s, job, t); }
    }
  }

  lemma NoJobs(s: Schedule, windowStart: int, last: int)
    requires s.Valid() && s.Scheduled(last) && last - s.period < windowStart
    ensures JobsIn(s, windowStart, last) == {}
  {
    forall t | t in JobsIn(s, windowStart, last) ensures false {
      NoneBetween(s, t, last);
    }
  }

  lemma PreviousJob(s: Schedule, last: int)
    requires s.Valid() && s.Scheduled(last)
    ensures s.Scheduled(last - s.period)
  {
    assert last - s.period == last + (-1) * s.period;
    ShiftScheduled(s, last, -1);
  }

  /** The floor counts the scheduled times from the window's start to the last job, exclusive. */
  lemma {:induction false} FloorIsCount(s: Schedule, windowStart: int, last: int)
    requires s.Valid() && s.Scheduled(last)
    ensures |JobsIn(s, windowStart, last)| == Max(last - windowStart, 0) / s.period
    decreases Max(last - windowStart, 0)
  {
    var previous := last - s.period;
    PreviousJob(s, last);
    if windowStart <= previous {
      FloorIsCount(s, windowStart, previous);
      OneMoreJob(s, windowStart, previous);
      DivStep(previous - windowStart, s.period);
    } else {
      NoJobs(s, windowStart, last);
      DivSmall(Max(last - windowStart, 0), s.period);
    }
  }

  /** The closed form is a count over the schedule, for every period, offset, window and tolerance. */
  lemma ExpectedJobsIsCount(now: int, s: Schedule, windowStart: int, tolerance: int)
    requires s.Valid()
    ensures var last := LastJob(now, s);
            && s.Scheduled(last) && last <= now < last + s.period
            && ExpectedJobs(now, s, windowStart, tolerance)
               == |JobsIn(s, windowStart, last)| + if now - last > tolerance && last > windowStart then 1 else 0
  {
    NextJobIsLeast(now, s);
    PreviousJob(s, NextJob(now, s));
    FloorIsCount(s, windowStart, LastJob(now, s));
  }

  /** The last job sits exactly on the window's start and its tolerance has run out: it is not counted. */
  predicate MissesBoundaryJob(now: int, s: Schedule, windowStart: int, tolerance: int)
    requires s.Valid()
  {
    LastJob(now, s) == windowStart && now - LastJob(now, s) > tolerance
  }

  /** An earlier job of the window is still within the tolerance, but counted. */
  predicate CountsJobInTolerance(now: int, s: Schedule, windowStart: int, tolerance: int)
    requires s.Valid()
  {
    var previous := LastJob(now, s) - s.period;
    windowStart <= previous && now - previous <= tolerance
  }

  lemma {:induction false} SubsetSize<T>(a: set<T>, b: set<T>)
    requires a <= b
    ensures |a| <= |b|
    decreases |a|
  {
    if x :| x in a {
      SubsetSize(a - {x}, b - {x});
    }
  }

  /** What the number is for, jobs that should have completed, and exactly when it is that number. */
  lemma ExpectedJobsIsOverdueIff(now: int, s: Schedule, windowStart: int, tolerance: int)
    requires s.Valid()
    ensures ExpectedJobs(now, s, windowStart, tolerance) == |OverdueJobs(s, windowStart, now, tolerance)|
            <==> && !MissesBoundaryJob(now, s, windowStart, tolerance)
                 && !CountsJobInTolerance(now, s, windowStart, tolerance)
  {
    ExpectedJobsIsCount(now, s, windowStart, tolerance);
    var last := LastJob(now, s);
    var previous := last - s.period;
    PreviousJob(s, last);
    var counted, overdue := JobsIn(s, windowStart, last), OverdueJobs(s, windowStart, now, tolerance);
    forall t | s.Scheduled(t) && t <= now ensures t == last || t <= previous {
      if last < t { NoneBetween(s, last, t); }
      if t < last { NoneBetween(s, t, last); }
    }
    if CountsJobInTolerance(now, s, windowStart, tolerance) {
      assert overdue <= counted - {previous};
      SubsetSize(overdue, counted - {previous});
      assert |counted - {previous}| == |counted| - 1;
    } else if now - last > tolerance && windowStart <= last {
      assert overdue == counted + {last};
    } else {
      assert overdue == counted;
    }
  }

  /** With a tolerance below the period only the boundary job matters. */
  lemma GracePeriod(now: int, s: Schedule, windowStart: int, tolerance: int)
    requires s.Valid() && tolerance < s.period && LastJob(now, s) != windowStart
    ensures ExpectedJobs(now, s, windowStart, tolerance) == |OverdueJobs(s, windowStart, now, tolerance)|
  {
    ExpectedJobsIsOverdueIff(now, s, windowStart, tolerance);
    ExpectedJobsIsCount(now, s, windowStart, tolerance);
  }

  /** A boundary job that is lost: hourly jobs on the hour, a window of one hour that starts on the
      last one, and a tolerance of a minute. */
  lemma BoundaryJobIsLost()
    ensures var s := Schedule(3600, 0);
            && LastJob(7300, s) == 7200 && ExpectedJobs(7300, s, 7200, 60) == 0
            && OverdueJobs(s, 7200, 7300, 60) == {7200}
  {
    var s := Schedule(3600, 0);
    assert LastJob(7300, s) == 7200;
    forall t | t in OverdueJobs(s, 7200, 7300, 60) ensures t == 7200 {
      if 7200 < t { NoneBetween(s, 7200, t); }
    }
    assert 7200 in OverdueJobs(s, 7200, 7300, 60);
  }

  /** A longer history never expects fewer jobs. */
  lemma LongerWindowExpectsMore(now: int, s: Schedule, earlier: int, windowStart: int, tolerance: int)
    requires s.Valid() && earlier <= windowStart
    ensures ExpectedJobs(now, s, windowStart, tolerance) <= ExpectedJobs(now, s, earlier, tolerance)
  {
    ExpectedJobsIsCount(now, s, earlier, tolerance);
    ExpectedJobsIsCount(now, s, windowStart, tolerance);
    SubsetSize(JobsIn(s, windowStart, LastJob(now, s)), JobsIn(s, earlier, LastJob(now, s)));
  }

  /** Extending a window that reaches before the last job by m periods adds exactly m jobs. */
  lemma GrowsByPeriods(now: int, s: Schedule, windowStart: int, tolerance: int, m: nat)
    requires s.Valid() && windowStart < LastJob(now, s)
    ensures ExpectedJobs(now, s, windowStart - m * s.period, tolerance)
            == ExpectedJobs(now, s, windowStart, tolerance) + m
  {
    var size := LastJob(now, s) - windowStart;
    var q := size / s.period;
    assert (q + m) * s.period == q * s.period + m * s.period;
    DivModUnique(size + m * s.period, s.period, q + m, size % s.period);
    MulBounds(s.period, m);
  }
}
