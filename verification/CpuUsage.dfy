/** The CPU usage reporter (pkg/telemetry/perf_unix.go): seconds used since the previous report, from
    stored second and microsecond counters. */
module CpuUsage {
  import opened GoStrings

  datatype Timeval = Timeval(sec: int, usec: int)

  datatype Rusage = Rusage(utime: Timeval, stime: Timeval)

  /** Go's arithmetic right shift by 20 bits: rounds toward minus infinity. */
  function Shift(x: int): int { x / 0x10_0000 }

  function Delta(before: Timeval, after: Timeval): int
  {
    after.sec - before.sec + Shift(after.usec - before.usec)
  }

  datatype Report = NotInitialized | RusageFailed | Report(user: int, sys: int)

  class PerfProfile {
    var usage: Option<Rusage>

    /** NewPerfProfile with the first sample. */
    constructor (first: Rusage)
      ensures usage == Some(first)
    {
      usage := Some(first);
    }

    /** GetCPUUsage; `current` is what getrusage returned, if it did not fail. */
    method GetCPUUsage(current: Option<Rusage>) returns (r: Report)
      modifies this
      ensures old(usage).None? ==> r == NotInitialized && usage == old(usage)
      ensures old(usage).Some? && current.None? ==> r == RusageFailed && usage == old(usage)
      ensures old(usage).Some? && current.Some? ==>
                && usage == current
                && r == Report(Delta(old(usage).value.utime, current.value.utime),
                               Delta(old(usage).value.stime, current.value.stime))
    {
      if usage.None? {
        return NotInitialized;
      }
      if current.None? {
        return RusageFailed;
      }
      var userTime := current.value.utime.sec - usage.value.utime.sec;
      userTime := userTime + Shift(current.value.utime.usec - usage.value.utime.usec);
      var sysTime := current.value.stime.sec - usage.value.stime.sec;
      sysTime := sysTime + Shift(current.value.stime.usec - usage.value.stime.usec);
      usage := current;
      return Report(userTime, sysTime);
    }
  }

  // ----- what a report means -----

  function Micros(t: Timeval): int { 1_000_000 * t.sec + t.usec }

  predicate Normal(t: Timeval) { 0 <= t.usec < 1_000_000 }

  /** Dropping 20 bits of a microsecond difference below a second is its floor in seconds. */
  lemma ShiftIsBorrow(d: int)
    requires -1_000_000 < d < 1_000_000
    ensures Shift(d) == if d < 0 then -1 else 0
  {
  }

  /** A report is exactly the floor of the true difference in seconds. */
  lemma DeltaIsFloor(before: Timeval, after: Timeval)
    requires Normal(before) && Normal(after)
    ensures Delta(before, after) == (Micros(after) - Micros(before)) / 1_000_000
    ensures 1_000_000 * Delta(before, after) <= Micros(after) - Micros(before) < 1_000_000 * (Delta(before, after) + 1)
    ensures Micros(before) <= Micros(after) ==> Delta(before, after) >= 0
  {
    ShiftIsBorrow(after.usec - before.usec);
  }

  // ----- whole runs -----

  function Deltas(samples: seq<Timeval>): seq<int>
    requires samples != []
  {
    if |samples| == 1 then []
    else
      var n := |samples| - 1;
      Deltas(samples[..n]) + [Delta(samples[n - 1], samples[n])]
  }

  function Sum(xs: seq<int>): int { if xs == [] then 0 else Sum(xs[..|xs| - 1]) + xs[|xs| - 1] }

  /** Over any run of reports the total is never above the true usage, and below it by less than one
      second per report. */
  lemma {:induction false} TotalWithinOneSecondEach(samples: seq<Timeval>)
    requires samples != [] && forall t | t in samples :: Normal(t)
    ensures var n, used := |samples| - 1, Micros(samples[|samples| - 1]) - Micros(samples[0]);
            && |Deltas(samples)| == n
            && 1_000_000 * Sum(Deltas(samples)) <= used
            && used <= 1_000_000 * (Sum(Deltas(samples)) + n)
            && (n > 0 ==> used < 1_000_000 * (Sum(Deltas(samples)) + n))
  {
    if |samples| > 1 {
      var n := |samples| - 1;
      forall t | t in samples[..n] ensures Normal(t) { assert t in samples; }
      TotalWithinOneSecondEach(samples[..n]);
      assert samples[n - 1] in samples && samples[n] in samples;
      DeltaIsFloor(samples[n - 1], samples[n]);
      var front, d := Deltas(samples[..n]), Delta(samples[n - 1], samples[n]);
      assert Deltas(samples) == front + [d];
      assert (front + [d])[..|front|] == front;
    }
  }

  /** The user times of a run: the stored sample, then every sample getrusage returned. */
  function UserTimes(first: Rusage, polls: seq<Option<Rusage>>): (ts: seq<Timeval>)
    ensures ts != []
  {
    if polls == [] then [first.utime]
    else
      var n := |polls| - 1;
      UserTimes(first, polls[..n]) + if polls[n].Some? then [polls[n].value.utime] else []
  }

  function SystemTimes(first: Rusage, polls: seq<Option<Rusage>>): (ts: seq<Timeval>)
    ensures ts != []
  {
    if polls == [] then [first.stime]
    else
      var n := |polls| - 1;
      SystemTimes(first, polls[..n]) + if polls[n].Some? then [polls[n].value.stime] else []
  }

  /** The sample stored after a run. */
  function Latest(first: Rusage, polls: seq<Option<Rusage>>): Rusage
  {
    if polls == [] then first
    else if polls[|polls| - 1].Some? then polls[|polls| - 1].value
    else Latest(first, polls[..|polls| - 1])
  }

  /** One more sample adds one more delta. */
  lemma DeltasStep(ts: seq<Timeval>, t: Timeval)
    requires ts != []
    ensures Deltas(ts + [t]) == Deltas(ts) + [Delta(ts[|ts| - 1], t)]
  {
    assert (ts + [t])[..|ts|] == ts;
  }

  lemma {:induction false} LatestIsLast(first: Rusage, polls: seq<Option<Rusage>>)
    ensures var us, ss := UserTimes(first, polls), SystemTimes(first, polls);
            us[|us| - 1] == Latest(first, polls).utime && ss[|ss| - 1] == Latest(first, polls).stime
  {
    if polls != [] {
      LatestIsLast(first, polls[..|polls| - 1]);
    }
  }

  /** A failed call of getrusage leaves no trace in a run; a sample adds its two deltas. */
  lemma PollStep(first: Rusage, polls: seq<Option<Rusage>>, poll: Option<Rusage>)
    ensures poll.None? ==>
              && UserTimes(first, polls + [poll]) == UserTimes(first, polls)
              && SystemTimes(first, polls + [poll]) == SystemTimes(first, polls)
    ensures poll.Some? ==>
              && Deltas(UserTimes(first, polls + [poll])) ==
                 Deltas(UserTimes(first, polls)) + [Delta(Latest(first, polls).utime, poll.value.utime)]
              && Deltas(SystemTimes(first, polls + [poll])) ==
                 Deltas(SystemTimes(first, polls)) + [Delta(Latest(first, polls).stime, poll.value.stime)]
    ensures Latest(first, polls + [poll]) == if poll.Some? then poll.value else Latest(first, polls)
  {
    hide Deltas, Delta;
    assert (polls + [poll])[..|polls|] == polls;
    if poll.Some? {
      LatestIsLast(first, polls);
      DeltasStep(UserTimes(first, polls), poll.value.utime);
      DeltasStep(SystemTimes(first, polls), poll.value.stime);
    }
  }

  /** What the reports of a run amount to: the deltas of consecutive samples, and how many calls
      failed. */
  ghost predicate Reported(
    first: Rusage, polls: seq<Option<Rusage>>, users: seq<int>, systems: seq<int>, failures: nat,
    stored: Option<Rusage>)
  {
    && users == Deltas(UserTimes(first, polls)) && systems == Deltas(SystemTimes(first, polls))
    && |users| + failures == |polls| && stored == Some(Latest(first, polls))
  }

  lemma ReportedNone(first: Rusage)
    ensures Reported(first, [], [], [], 0, Some(first))
  {
  }

  lemma ReportedMore(
    first: Rusage, polls: seq<Option<Rusage>>, users: seq<int>, systems: seq<int>, failures: nat,
    poll: Option<Rusage>)
    requires Reported(first, polls, users, systems, failures, Some(Latest(first, polls)))
    ensures poll.None? ==>
              Reported(first, polls + [poll], users, systems, failures + 1, Some(Latest(first, polls)))
    ensures poll.Some? ==>
              Reported(first, polls + [poll], users + [Delta(Latest(first, polls).utime, poll.value.utime)],
                       systems + [Delta(Latest(first, polls).stime, poll.value.stime)], failures, poll)
  {
    hide Deltas, Delta, UserTimes, SystemTimes, Latest;
    PollStep(first, polls, poll);
  }

  lemma StoredIsLatest(
    first: Rusage, polls: seq<Option<Rusage>>, users: seq<int>, systems: seq<int>, failures: nat,
    stored: Option<Rusage>)
    requires Reported(first, polls, users, systems, failures, stored)
    ensures stored == Some(Latest(first, polls))
  {
  }

  /** The stored sample makes the reports of a run the deltas of consecutive samples, whatever calls of
      getrusage fail in between; each failure is reported as such. */
  method ReportAll(p: PerfProfile, polls: seq<Option<Rusage>>)
    returns (users: seq<int>, systems: seq<int>, failures: nat)
    requires p.usage.Some?
    modifies p
    ensures Reported(old(p.usage).value, polls, users, systems, failures, p.usage)
  {
    ghost var first := p.usage.value;
    ReportedNone(first);
    hide Reported, Delta, Latest;
    users, systems, failures := [], [], 0;
    for i := 0 to |polls|
      invariant p.usage.Some? && Reported(first, polls[..i], users, systems, failures, p.usage)
    {
      StoredIsLatest(first, polls[..i], users, systems, failures, p.usage);
      ReportedMore(first, polls[..i], users, systems, failures, polls[i]);
      var r := p.GetCPUUsage(polls[i]);
      assert polls[..i + 1] == polls[..i] + [polls[i]];
      if r.Report? {
        users := users + [r.user];
        systems := systems + [r.sys];
      } else {
        failures := failures + 1;
      }
    }
    assert polls[..|polls|] == polls;
  }
}
