/** The worker pool that aggregates the logs of a build: whatever the schedule, each job is
    taken once and the sums and maxima come out the same. */
module SlowestAggregation {
  import opened SlowestTests

  /** A job: its platform, and the headers of its log if fetching that succeeds. */
  datatype Job = Fetched(platform: string, log: seq<Header>) | FetchFails

  datatype FileAgg = FileAgg(maxMs: int, maxPlat: string, perPlat: map<string, int>)

  type Agg = map<string, FileAgg>

  // ----- aggregating

  function AddReport(agg: Agg, platform: string, r: Report): Agg {
    var a := if r.file in agg then agg[r.file] else FileAgg(0, "", map[]);
    var total := Get(a.perPlat, platform) + r.ms;
    var b := a.(perPlat := a.perPlat[platform := total]);
    agg[r.file := if total > a.maxMs then b.(maxMs := total, maxPlat := platform) else b]
  }

  function AddReports(agg: Agg, platform: string, reports: seq<Report>): Agg {
    if reports == [] then agg
    else AddReport(AddReports(agg, platform, reports[..|reports| - 1]), platform, reports[|reports| - 1])
  }

  function AddJob(agg: Agg, job: Job): Agg {
    match job
    case FetchFails => agg
    case Fetched(platform, log) => AddReports(agg, platform, Reports(log))
  }

  function AddJobs(jobs: seq<Job>): Agg {
    if jobs == [] then map[] else AddJob(AddJobs(jobs[..|jobs| - 1]), jobs[|jobs| - 1])
  }

  /** The shared map, updated in place by whichever worker has a log. */
  class Aggregator {
    var agg: Agg

    constructor ()
      ensures agg == map[]
    {
      agg := map[];
    }

    /** One entry of the map of a log. */
    method AddEntry(platform: string, file: string, ms: int)
      modifies this
      ensures agg == AddReport(old(agg), platform, Report(file, ms))
    {
      if file !in agg {
        agg := agg[file := FileAgg(0, "", map[])];
      }
      var a := agg[file];
      var total := Get(a.perPlat, platform) + ms;
      a := a.(perPlat := a.perPlat[platform := total]);
      if total > a.maxMs {
        a := a.(maxMs := total, maxPlat := platform);
      }
      agg := agg[file := a];
    }

    method Process(job: Job)
      modifies this
      ensures agg == AddJob(old(agg), job)
    {
      match job {
        case FetchFails =>
        case Fetched(platform, log) =>
          hide FilesTo, DurationOf, AddReport;
          var out, files := ParseLog(log);
          ghost var reports := Reports(log);
          for i := 0 to |files|
            invariant agg == AddReports(old(agg), platform, reports[..i])
          {
            assert reports[..i + 1][..i] == reports[..i];
            assert files[i] in out && reports[i] == Report(files[i], out[files[i]]);
            AddEntry(platform, files[i], out[files[i]]);
          }
          assert reports[..|reports|] == reports;
      }
    }
  }

  // ----- the reference: sums over a collection of jobs

  /** What a job adds to a file on a platform. */
  function JobTime(job: Job, file: string, platform: string): int {
    match job
    case FetchFails => 0
    case Fetched(p, log) => if p == platform then DurationOf(log, file, |log|) else 0
  }

  function TotalTime(jobs: seq<Job>, file: string, platform: string): int {
    if jobs == [] then 0
    else TotalTime(jobs[..|jobs| - 1], file, platform) + JobTime(jobs[|jobs| - 1], file, platform)
  }

  /** The log of the job times the file: a named header of it is followed by another header. */
  ghost predicate Mentions(job: Job, file: string, platform: string) {
    job.Fetched? && job.platform == platform &&
    exists i :: 0 <= i < |job.log| - 1 && job.log[i].name != "" && job.log[i].file == file
  }

  ghost predicate Reported(jobs: seq<Job>, file: string, platform: string) {
    exists j :: j in jobs && Mentions(j, file, platform)
  }

  /** In every log timestamps never go back. */
  ghost predicate AllTick(jobs: seq<Job>) {
    forall j :: j in jobs && j.Fetched? ==> Ticks(j.log)
  }

  lemma {:induction false} TotalOfTail(jobs: seq<Job>, k: nat, file: string, platform: string)
    requires k < |jobs|
    ensures TotalTime(jobs, file, platform) == TotalTime(jobs[..k] + jobs[k + 1..], file, platform) + JobTime(jobs[k], file, platform)
  {
    hide JobTime;
    var front, last := jobs[..|jobs| - 1], jobs[|jobs| - 1];
    var without := jobs[..k] + jobs[k + 1..];
    if k == |jobs| - 1 {
      assert without == front;
    } else {
      TotalOfTail(front, k, file, platform);
      assert without[..|without| - 1] == front[..k] + front[k + 1..];
    }
  }

  /** The sums depend on the jobs, not on their order. */
  lemma {:induction false} TotalIgnoresOrder(a: seq<Job>, b: seq<Job>, file: string, platform: string)
    requires multiset(a) == multiset(b)
    ensures TotalTime(a, file, platform) == TotalTime(b, file, platform)
  {
    if a == [] {
      assert |b| == |multiset(b)| == 0;
    } else {
      var last := a[|a| - 1];
      assert a == a[..|a| - 1] + [last];
      assert last in multiset(b);
      var k :| 0 <= k < |b| && b[k] == last;
      assert b == b[..k] + [last] + b[k + 1..];
      assert multiset(a[..|a| - 1]) == multiset(a) - multiset{last};
      assert multiset(b[..k] + b[k + 1..]) == multiset(b) - multiset{last};
      TotalIgnoresOrder(a[..|a| - 1], b[..k] + b[k + 1..], file, platform);
      TotalOfTail(b, k, file, platform);
    }
  }

  // ----- what the map says

  /** The entry of a file holds the given sums, and the maximum over the platforms. */
  ghost predicate EntryRight(a: FileAgg) {
    && a.perPlat.Keys != {}
    && (forall p :: p in a.perPlat ==> 0 <= a.perPlat[p] <= a.maxMs)
    && (a.maxMs == 0 || (a.maxPlat in a.perPlat && a.perPlat[a.maxPlat] == a.maxMs))
  }

  ghost predicate EntriesRight(agg: Agg) {
    forall file :: file in agg ==> EntryRight(agg[file])
  }

  /** The sum the map holds for a file on a platform, if any. */
  function TimeIn(agg: Agg, file: string, platform: string): int {
    if file in agg then Get(agg[file].perPlat, platform) else 0
  }

  ghost predicate Known(agg: Agg, file: string, platform: string) {
    file in agg && platform in agg[file].perPlat
  }

  lemma {:induction false} ReportsAdd(agg: Agg, platform: string, reports: seq<Report>, file: string, p: string)
    ensures TimeIn(AddReports(agg, platform, reports), file, p)
         == TimeIn(agg, file, p) + if p == platform then SumReports(reports, file) else 0
    ensures Known(AddReports(agg, platform, reports), file, p)
       <==> Known(agg, file, p) || (p == platform && exists i :: 0 <= i < |reports| && reports[i].file == file)
  {
    if reports != [] {
      ReportsAdd(agg, platform, reports[..|reports| - 1], file, p);
      assert reports[|reports| - 1].file == file ==> exists i :: 0 <= i < |reports| && reports[i].file == file;
      assert forall i :: 0 <= i < |reports| - 1 ==> reports[..|reports| - 1][i] == reports[i];
    }
  }

  lemma {:induction false} ReportKeepsMaxima(agg: Agg, platform: string, r: Report)
    requires EntriesRight(agg) && r.ms >= 0
    ensures EntriesRight(AddReport(agg, platform, r))
  {
    var after := AddReport(agg, platform, r);
    assert platform in after[r.file].perPlat;
    assert EntryRight(after[r.file]);
    hide EntryRight;
  }

  lemma {:induction false} ReportsKeepMaxima(agg: Agg, platform: string, reports: seq<Report>)
    requires EntriesRight(agg) && forall i :: 0 <= i < |reports| ==> reports[i].ms >= 0
    ensures EntriesRight(AddReports(agg, platform, reports))
  {
    hide EntriesRight, AddReport;
    if reports != [] {
      ReportsKeepMaxima(agg, platform, reports[..|reports| - 1]);
      ReportKeepsMaxima(AddReports(agg, platform, reports[..|reports| - 1]), platform, reports[|reports| - 1]);
    }
  }

  /** A log adds its durations, and mentions the files it times. */
  lemma {:induction false} LogAdds(agg: Agg, platform: string, log: seq<Header>, file: string, p: string)
    ensures var after := AddJob(agg, Fetched(platform, log));
            && TimeIn(after, file, p) == TimeIn(agg, file, p) + JobTime(Fetched(platform, log), file, p)
            && (Known(after, file, p) <==> Known(agg, file, p) || Mentions(Fetched(platform, log), file, p))
  {
    hide AddReports, TimeIn, Known, SumReports, DurationOf, FilesTo;
    ReportsAdd(agg, platform, Reports(log), file, p);
    ReportsAreDurations(log, file);
    FilesAre(log, |log|);
    var files := FilesTo(log, |log|);
    if file in files {
      var k :| 0 <= k < |files| && files[k] == file;
      assert Reports(log)[k].file == file;
    }
  }

  /** After any sequence of jobs, the map holds the sums of the reference for exactly the
      files and platforms reported. */
  lemma {:induction false} JobsAdd(jobs: seq<Job>, file: string, p: string)
    ensures TimeIn(AddJobs(jobs), file, p) == TotalTime(jobs, file, p)
    ensures Known(AddJobs(jobs), file, p) <==> Reported(jobs, file, p)
  {
    hide TimeIn, Known, AddReports, DurationOf;
    if jobs == [] {
      NothingYet(file, p);
    } else {
      var front, last := jobs[..|jobs| - 1], jobs[|jobs| - 1];
      JobsAdd(front, file, p);
      assert jobs == front + [last];
      assert Reported(jobs, file, p) <==> Reported(front, file, p) || Mentions(last, file, p) by {
        assert forall j :: j in jobs <==> j in front || j == last;
      }
      match last {
        case FetchFails => assert !Mentions(last, file, p);
        case Fetched(platform, log) => LogAdds(AddJobs(front), platform, log, file, p);
      }
    }
  }

  lemma {:induction false} NothingYet(file: string, p: string)
    ensures TimeIn(map[], file, p) == 0 && !Known(map[], file, p)
  {
  }

  lemma {:induction false} LogKeepsMaxima(agg: Agg, platform: string, log: seq<Header>)
    requires EntriesRight(agg) && Ticks(log)
    ensures EntriesRight(AddJob(agg, Fetched(platform, log)))
  {
    hide AddReports, EntriesRight, DurationOf, FilesTo, Ticks;
    forall i | 0 <= i < |Reports(log)| ensures Reports(log)[i].ms >= 0 {
      DurationsNotNegative(log, FilesTo(log, |log|)[i], |log|);
    }
    ReportsKeepMaxima(agg, platform, Reports(log));
  }

  lemma {:induction false} JobsKeepMaxima(jobs: seq<Job>)
    requires AllTick(jobs)
    ensures EntriesRight(AddJobs(jobs))
  {
    hide EntryRight, AddReports, Ticks;
    if jobs != [] {
      var front, last := jobs[..|jobs| - 1], jobs[|jobs| - 1];
      assert jobs == front + [last];
      JobsKeepMaxima(front);
      if last.Fetched? {
        LogKeepsMaxima(AddJobs(front), last.platform, last.log);
      }
    }
  }

  // ----- the pool

  const WORKERS: nat := 16

  /** The queue, the jobs the workers hold, the jobs processed so far, and the shared map. */
  datatype Pool = Pool(queue: seq<Job>, held: seq<Job>, processed: seq<Job>, agg: Agg)

  /** A free worker takes the head of the queue, or the worker that took job `k` of those held
      gets its log and processes it. */
  datatype Step = Take | Process(k: nat)

  predicate Enabled(pool: Pool, step: Step) {
    match step
    case Take => pool.queue != [] && |pool.held| < WORKERS
    case Process(k) => k < |pool.held|
  }

  function Next(pool: Pool, step: Step): Pool
    requires Enabled(pool, step)
  {
    match step
    case Take => pool.(queue := pool.queue[1..], held := pool.held + [pool.queue[0]])
    case Process(k) =>
      pool.(held := pool.held[..k] + pool.held[k + 1..], processed := pool.processed + [pool.held[k]],
            agg := AddJob(pool.agg, pool.held[k]))
  }

  /** The pool after a schedule, which stops at a step that is not enabled. */
  function Run(pool: Pool, schedule: seq<Step>): Pool
    decreases |schedule|
  {
    if schedule == [] || !Enabled(pool, schedule[0]) then pool
    else Run(Next(pool, schedule[0]), schedule[1..])
  }

  function Initial(jobs: seq<Job>): Pool {
    Pool(jobs, [], [], map[])
  }

  /** No worker can do anything more. */
  predicate Finished(pool: Pool) {
    pool.queue == [] && pool.held == []
  }

  /** No job is lost or taken twice, and the map is that of the jobs processed. */
  ghost predicate PoolInvariant(jobs: seq<Job>, pool: Pool) {
    && multiset(pool.queue) + multiset(pool.held) + multiset(pool.processed) == multiset(jobs)
    && pool.agg == AddJobs(pool.processed)
  }

  /** Taking out an element takes it out of the multiset. */
  lemma {:induction false} TakeOut(jobs: seq<Job>, k: nat)
    requires k < |jobs|
    ensures multiset(jobs) == multiset(jobs[..k] + jobs[k + 1..]) + multiset{jobs[k]}
  {
    assert jobs == jobs[..k] + [jobs[k]] + jobs[k + 1..];
  }

  lemma {:induction false} TakeFirst(jobs: seq<Job>)
    requires jobs != []
    ensures multiset(jobs) == multiset(jobs[1..]) + multiset{jobs[0]}
  {
    assert jobs == [jobs[0]] + jobs[1..];
  }

  lemma {:induction false} PutIn(jobs: seq<Job>, job: Job)
    ensures multiset(jobs + [job]) == multiset(jobs) + multiset{job}
  {
  }

  lemma {:induction false} Moves(a: multiset<Job>, b: multiset<Job>, c: multiset<Job>, job: Job)
    ensures a + (b + multiset{job}) + c == (a + multiset{job}) + b + c
    ensures a + b + (c + multiset{job}) == a + (b + multiset{job}) + c
  {
  }

  lemma {:induction false} TakeKeepsInvariant(jobs: seq<Job>, pool: Pool)
    requires PoolInvariant(jobs, pool) && Enabled(pool, Take)
    ensures PoolInvariant(jobs, Next(pool, Take))
  {
    hide AddJobs;
    TakeFirst(pool.queue);
    PutIn(pool.held, pool.queue[0]);
    Moves(multiset(pool.queue[1..]), multiset(pool.held), multiset(pool.processed), pool.queue[0]);
  }

  lemma {:induction false} ProcessKeepsInvariant(jobs: seq<Job>, pool: Pool, k: nat)
    requires PoolInvariant(jobs, pool) && Enabled(pool, Process(k))
    ensures PoolInvariant(jobs, Next(pool, Process(k)))
  {
    hide AddJob;
    var job, others := pool.held[k], pool.held[..k] + pool.held[k + 1..];
    TakeOut(pool.held, k);
    PutIn(pool.processed, job);
    Moves(multiset(pool.queue), multiset(others), multiset(pool.processed), job);
    assert (pool.processed + [job])[..|pool.processed|] == pool.processed;
  }

  lemma {:induction false} StepKeepsInvariant(jobs: seq<Job>, pool: Pool, step: Step)
    requires PoolInvariant(jobs, pool) && Enabled(pool, step)
    ensures PoolInvariant(jobs, Next(pool, step))
  {
    hide PoolInvariant, Next;
    match step
    case Take => TakeKeepsInvariant(jobs, pool);
    case Process(k) => ProcessKeepsInvariant(jobs, pool, k);
  }

  lemma {:induction false} RunKeepsInvariant(jobs: seq<Job>, pool: Pool, schedule: seq<Step>)
    requires PoolInvariant(jobs, pool)
    ensures PoolInvariant(jobs, Run(pool, schedule))
    decreases |schedule|
  {
    if schedule != [] && Enabled(pool, schedule[0]) {
      StepKeepsInvariant(jobs, pool, schedule[0]);
      RunKeepsInvariant(jobs, Next(pool, schedule[0]), schedule[1..]);
    }
  }

  /** Until it has finished, the pool can go on, and each step brings the end nearer. */
  lemma {:induction false} PoolProgresses(pool: Pool)
    ensures Finished(pool) <==> forall step :: !Enabled(pool, step)
    ensures forall step :: Enabled(pool, step) ==>
              2 * |Next(pool, step).queue| + |Next(pool, step).held| < 2 * |pool.queue| + |pool.held|
  {
    if !Finished(pool) {
      assert Enabled(pool, if pool.held != [] then Process(0) else Take);
    }
  }

  /** Every schedule that runs to the end takes each job once, and leaves for each file and
      platform the sum of the durations in all its logs; where timestamps never go back, the
      maximum of a file is its greatest sum. */
  lemma {:induction false} ScheduleDoesNotMatter(jobs: seq<Job>, schedule: seq<Step>, file: string)
    requires Finished(Run(Initial(jobs), schedule))
    ensures var end := Run(Initial(jobs), schedule);
            && multiset(end.processed) == multiset(jobs)
            && (forall p :: TimeIn(end.agg, file, p) == TotalTime(jobs, file, p)
                            && (Known(end.agg, file, p) <==> Reported(jobs, file, p)))
            && (AllTick(jobs) && file in end.agg ==> EntryRight(end.agg[file]))
  {
    RunKeepsInvariant(jobs, Initial(jobs), schedule);
    var end := Run(Initial(jobs), schedule);
    assert multiset(end.processed) == multiset(jobs);
    forall p ensures TimeIn(end.agg, file, p) == TotalTime(jobs, file, p) && (Known(end.agg, file, p) <==> Reported(jobs, file, p)) {
      JobsAdd(end.processed, file, p);
      TotalIgnoresOrder(end.processed, jobs, file, p);
      SameReported(end.processed, jobs, file, p);
    }
    if AllTick(jobs) {
      SameTicks(end.processed, jobs);
      JobsKeepMaxima(end.processed);
    }
  }

  lemma {:induction false} SameReported(a: seq<Job>, b: seq<Job>, file: string, p: string)
    requires multiset(a) == multiset(b)
    ensures Reported(a, file, p) <==> Reported(b, file, p)
  {
    assert forall j :: j in a <==> j in multiset(a);
    assert forall j :: j in b <==> j in multiset(b);
  }

  lemma {:induction false} SameTicks(a: seq<Job>, b: seq<Job>)
    requires multiset(a) == multiset(b) && AllTick(b)
    ensures AllTick(a)
  {
    assert forall j :: j in a <==> j in multiset(a);
    assert forall j :: j in b <==> j in multiset(b);
  }

  /** So two schedules agree on the files, on all sums and on the maximum of every file. */
  lemma {:induction false} SchedulesAgree(jobs: seq<Job>, s: seq<Step>, t: seq<Step>, file: string)
    requires AllTick(jobs) && Finished(Run(Initial(jobs), s)) && Finished(Run(Initial(jobs), t))
    ensures var a, b := Run(Initial(jobs), s).agg, Run(Initial(jobs), t).agg;
            && (file in a <==> file in b)
            && (file in a ==> a[file].perPlat == b[file].perPlat && a[file].maxMs == b[file].maxMs)
  {
    ScheduleDoesNotMatter(jobs, s, file);
    ScheduleDoesNotMatter(jobs, t, file);
    hide Run, Reported, TotalTime;
    var a, b := Run(Initial(jobs), s).agg, Run(Initial(jobs), t).agg;
    forall p ensures Known(a, file, p) <==> Known(b, file, p) {
    }
    if file in a {
      var p :| p in a[file].perPlat.Keys;
      assert Known(b, file, p);
    }
    if file in b {
      var p :| p in b[file].perPlat.Keys;
      assert Known(a, file, p);
    }
    if file in a {
      forall p ensures p in a[file].perPlat <==> p in b[file].perPlat {
        assert Known(a, file, p) <==> Known(b, file, p);
      }
      forall p | p in a[file].perPlat ensures a[file].perPlat[p] == b[file].perPlat[p] {
        assert TimeIn(a, file, p) == TimeIn(b, file, p);
      }
    }
  }
}
