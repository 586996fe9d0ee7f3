/** The heartbeat-driven reaper of jobs whose process has disappeared. */
module Reaper {
  import opened Common
  import opened JobStatusText
  import opened Allocations

  const SPAWN_GRACE := 5
  const MISSING_LIMIT := 10
  const REAP_REASON := "Process exited or failed to start"

  /** Job id to the time its absence was first recorded. */
  type Missing = map<JobId, nat>

  predicate AfterSpawn(job: Job, now: nat) {
    job.startTime.None? || SaturatingSub(now, job.startTime.value) > SPAWN_GRACE
  }

  /** A heartbeat of `w` that shows the job to be absent, past its grace. */
  predicate Absent(jobs: map<JobId, Job>, id: JobId, w: WorkerId, active: set<JobId>, now: nat) {
    id in jobs && RunsOn(jobs[id], w) && id !in active && AfterSpawn(jobs[id], now)
  }

  /** A heartbeat of a worker the job runs on that carries the job. */
  predicate Carried(jobs: map<JobId, Job>, id: JobId, w: WorkerId, active: set<JobId>) {
    id in jobs && RunsOn(jobs[id], w) && id in active
  }

  function FirstMissing(missing: Missing, id: JobId, now: nat): nat {
    if id in missing then missing[id] else now
  }

  /** The job is reaped by this heartbeat. */
  predicate Overdue(missing: Missing, jobs: map<JobId, Job>, id: JobId, w: WorkerId, active: set<JobId>, now: nat) {
    Absent(jobs, id, w, active, now) && SaturatingSub(now, FirstMissing(missing, id, now)) > MISSING_LIMIT
  }

  /** The absences on record after a heartbeat. */
  ghost function MissingAfter(missing: Missing, jobs: map<JobId, Job>, w: WorkerId, active: set<JobId>, now: nat): Missing {
    map id | id in missing.Keys + jobs.Keys
             && (id in missing || Absent(jobs, id, w, active, now))
             && !Carried(jobs, id, w, active) && !Overdue(missing, jobs, id, w, active, now)
      :: FirstMissing(missing, id, now)
  }

  function ReapedJob(job: Job, clock: nat): Job {
    job.(status := Failed(REAP_REASON), endTime := Some(clock))
  }

  /** The job table after a heartbeat. */
  ghost function JobsAfter(missing: Missing, jobs: map<JobId, Job>, w: WorkerId, active: set<JobId>, now: nat, clock: nat)
    : map<JobId, Job>
  {
    map id | id in jobs :: if Overdue(missing, jobs, id, w, active, now) then ReapedJob(jobs[id], clock) else jobs[id]
  }

  /** The heartbeat reaps the job: it runs on the worker, is not among the active
      ones, is not within five seconds of its start, and has been on record as
      absent for more than ten seconds. */
  ghost predicate Reaps(missing: Missing, jobs: map<JobId, Job>, id: JobId, w: WorkerId, active: set<JobId>, now: nat) {
    && id in jobs && jobs[id].status == Running && w in jobs[id].assignedWorkers && id !in active
    && (jobs[id].startTime.Some? ==> now > jobs[id].startTime.value + 5)
    && id in missing && now > missing[id] + 10
  }

  /** The heartbeat shows the job, or reaps it, so that its record goes. */
  ghost predicate DropsRecord(missing: Missing, jobs: map<JobId, Job>, id: JobId, w: WorkerId, active: set<JobId>, now: nat) {
    || Reaps(missing, jobs, id, w, active, now)
    || (id in jobs && jobs[id].status == Running && w in jobs[id].assignedWorkers && id in active)
  }

  /** The heartbeat misses the job for the first time. */
  ghost predicate MakesRecord(missing: Missing, jobs: map<JobId, Job>, id: JobId, w: WorkerId, active: set<JobId>, now: nat) {
    && id !in missing && id in jobs && jobs[id].status == Running && w in jobs[id].assignedWorkers && id !in active
    && (jobs[id].startTime.Some? ==> now > jobs[id].startTime.value + 5)
  }

  /** What a heartbeat does, in seconds and statuses: a reaped job fails with a fixed
      reason and an end time and is otherwise the same, every other job is the same,
      and records are made at the time of the heartbeat, kept or dropped. */
  lemma HeartbeatPlainly(missing: Missing, jobs: map<JobId, Job>, w: WorkerId, active: set<JobId>, now: nat, clock: nat, id: JobId)
    ensures var jobs' := JobsAfter(missing, jobs, w, active, now, clock);
            && (id in jobs' <==> id in jobs)
            && (Reaps(missing, jobs, id, w, active, now) ==>
                jobs'[id] == jobs[id].(status := Failed("Process exited or failed to start"), endTime := Some(clock)))
            && (id in jobs && !Reaps(missing, jobs, id, w, active, now) ==> jobs'[id] == jobs[id])
    ensures var missing' := MissingAfter(missing, jobs, w, active, now);
            && (id in missing' <==> (id in missing && !DropsRecord(missing, jobs, id, w, active, now))
                                    || MakesRecord(missing, jobs, id, w, active, now))
            && (id in missing' ==> missing'[id] == if id in missing then missing[id] else now)
  {
  }

  // ----- the scan of one heartbeat -----

  function Find(missing: Missing, id: JobId): Option<nat> {
    if id in missing then Some(missing[id]) else None
  }

  /** What the scan makes of one job's record; an overdue one is still on it. */
  ghost function Scanned(missing: Missing, jobs: map<JobId, Job>, id: JobId, w: WorkerId, active: set<JobId>, now: nat)
    : Option<nat>
  {
    if Carried(jobs, id, w, active) then None
    else if Absent(jobs, id, w, active, now) then Some(FirstMissing(missing, id, now))
    else Find(missing, id)
  }

  /** How far the scan has come with one job while `todo` is still to be visited. */
  ghost predicate ScanState(before: Missing, jobs: map<JobId, Job>, w: WorkerId, active: set<JobId>, now: nat,
                            todo: set<JobId>, missing: Missing, reap: seq<JobId>, id: JobId)
  {
    if id in todo then Find(missing, id) == Find(before, id) && id !in reap
    else Find(missing, id) == Scanned(before, jobs, id, w, active, now)
         && (id in reap <==> Overdue(before, jobs, id, w, active, now))
  }

  /** Visits the job table in an arbitrary order, records and clears absences
      and lists the jobs to reap. */
  method Scan(before: Missing, jobs: map<JobId, Job>, w: WorkerId, active: set<JobId>, now: nat)
    returns (missing: Missing, reap: seq<JobId>)
    ensures forall id :: ScanState(before, jobs, w, active, now, {}, missing, reap, id)
  {
    missing, reap := before, [];
    var todo := jobs.Keys;
    while todo != {}
      invariant todo <= jobs.Keys
      invariant forall id :: ScanState(before, jobs, w, active, now, todo, missing, reap, id)
      decreases |todo|
    {
      var id :| id in todo;
      assert ScanState(before, jobs, w, active, now, todo, missing, reap, id);
      ghost var missing0, reap0, todo0 := missing, reap, todo;
      missing, reap := ScanJob(missing, reap, id, jobs[id], w, active, now);
      todo := todo - {id};
      forall other ensures ScanState(before, jobs, w, active, now, todo, missing, reap, other) {
        assert ScanState(before, jobs, w, active, now, todo0, missing0, reap0, other);
      }
    }
  }

  method ScanJob(missing: Missing, reap: seq<JobId>, id: JobId, job: Job, w: WorkerId, active: set<JobId>, now: nat)
    returns (missing': Missing, reap': seq<JobId>)
    ensures var one := map[id := job];
            && Find(missing', id) == Scanned(missing, one, id, w, active, now)
            && reap' == if Overdue(missing, one, id, w, active, now) then reap + [id] else reap
    ensures forall other :: other != id ==> Find(missing', other) == Find(missing, other)
  {
    missing', reap' := missing, reap;
    if job.status == Running && w in job.assignedWorkers {
      if id !in active {
        if AfterSpawn(job, now) {
          if id !in missing' {
            missing' := missing'[id := now];
          }
          if SaturatingSub(now, missing'[id]) > MISSING_LIMIT {
            reap' := reap' + [id];
          }
        }
      } else {
        missing' := missing' - {id};
      }
    }
  }

  ghost function Cleared(missing: Missing, reap: seq<JobId>): Missing {
    map id | id in missing && id !in reap :: missing[id]
  }

  ghost function ReapedTable(jobs: map<JobId, Job>, reap: seq<JobId>, clock: nat): map<JobId, Job> {
    map id | id in jobs :: if id in reap then ReapedJob(jobs[id], clock) else jobs[id]
  }

  lemma NothingReaped(missing: Missing, jobs: map<JobId, Job>, clock: nat)
    ensures Cleared(missing, []) == missing && ReapedTable(jobs, [], clock) == jobs
  {
  }

  lemma ReapedNext(missing: Missing, jobs: map<JobId, Job>, reap: seq<JobId>, id: JobId, clock: nat)
    ensures Cleared(missing, reap + [id]) == Cleared(missing, reap) - {id}
    ensures var table := ReapedTable(jobs, reap, clock);
            ReapedTable(jobs, reap + [id], clock) ==
            if id in table then table[id := table[id].(status := Failed(REAP_REASON), endTime := Some(clock))] else table
  {
  }

  lemma ReapedIsOverdue(before: Missing, jobs: map<JobId, Job>, w: WorkerId, active: set<JobId>, now: nat,
                        missing: Missing, reap: seq<JobId>, clock: nat)
    requires forall id :: ScanState(before, jobs, w, active, now, {}, missing, reap, id)
    ensures ReapedTable(jobs, reap, clock) == JobsAfter(before, jobs, w, active, now, clock)
  {
    forall id | id in jobs ensures id in reap <==> Overdue(before, jobs, id, w, active, now) {
      assert ScanState(before, jobs, w, active, now, {}, missing, reap, id);
    }
  }

  /** Clearing the overdue records leaves exactly those of `MissingAfter`. */
  lemma ScannedThenCleared(before: Missing, jobs: map<JobId, Job>, w: WorkerId, active: set<JobId>, now: nat,
                           missing: Missing, reap: seq<JobId>)
    requires forall id :: ScanState(before, jobs, w, active, now, {}, missing, reap, id)
    ensures Cleared(missing, reap) == MissingAfter(before, jobs, w, active, now)
  {
    var l, r := Cleared(missing, reap), MissingAfter(before, jobs, w, active, now);
    forall id ensures Find(l, id) == Find(r, id) {
      assert ScanState(before, jobs, w, active, now, {}, missing, reap, id);
    }
    forall id ensures id in l <==> id in r ensures id in l ==> l[id] == r[id] {
      assert Find(l, id) == Find(r, id);
    }
  }

  // ----- whole runs -----

  datatype World = World(missing: Missing, jobs: map<JobId, Job>)

  /** Besides heartbeats, the job table may change in any way, and completion
      handlers drop a job's record of absence. */
  datatype Event =
    | Heartbeat(w: WorkerId, active: set<JobId>, now: nat, clock: nat)
    | Change(jobs: map<JobId, Job>)
    | Forget(id: JobId)

  ghost function Step(s: World, e: Event): World {
    match e
    case Heartbeat(w, active, now, clock) =>
      World(MissingAfter(s.missing, s.jobs, w, active, now), JobsAfter(s.missing, s.jobs, w, active, now, clock))
    case Change(jobs) => s.(jobs := jobs)
    case Forget(id) => s.(missing := s.missing - {id})
  }

  ghost function Run(init: World, events: seq<Event>): World {
    if events == [] then init else Step(Run(init, events[..|events| - 1]), events[|events| - 1])
  }

  lemma RunSnoc(init: World, events: seq<Event>, e: Event)
    ensures Run(init, events + [e]) == Step(Run(init, events), e)
  {
    assert (events + [e])[..|events|] == events;
  }

  /** Event `k` is a heartbeat that showed the job absent. */
  ghost predicate AbsentAt(init: World, events: seq<Event>, k: nat, id: JobId) {
    && k < |events| && events[k].Heartbeat?
    && Absent(Run(init, events[..k]).jobs, id, events[k].w, events[k].active, events[k].now)
  }

  /** Event `k` is a heartbeat of a worker the job ran on, and carried it. */
  ghost predicate CarriedAt(init: World, events: seq<Event>, k: nat, id: JobId) {
    && k < |events| && events[k].Heartbeat?
    && Carried(Run(init, events[..k]).jobs, id, events[k].w, events[k].active)
  }

  /** The job was seen absent at event `k` and not carried by any heartbeat
      between then and event `i`. */
  ghost predicate MissingSince(init: World, events: seq<Event>, k: nat, i: nat, id: JobId) {
    k < i && AbsentAt(init, events, k, id) && forall m: nat :: k < m < i ==> !CarriedAt(init, events, m, id)
  }

  lemma PrefixAt(init: World, events: seq<Event>, n: nat, k: nat, id: JobId)
    requires k < n <= |events|
    ensures AbsentAt(init, events[..n], k, id) <==> AbsentAt(init, events, k, id)
    ensures CarriedAt(init, events[..n], k, id) <==> CarriedAt(init, events, k, id)
  {
    assert events[..n][..k] == events[..k];
  }

  lemma MissingSinceLonger(init: World, events: seq<Event>, k: nat, n: nat, id: JobId)
    requires n < |events| && MissingSince(init, events[..n], k, n, id) && !CarriedAt(init, events, n, id)
    ensures MissingSince(init, events, k, n + 1, id)
  {
    PrefixAt(init, events, n, k, id);
    forall m: nat | k < m < n + 1 ensures !CarriedAt(init, events, m, id) {
      if m < n { PrefixAt(init, events, n, m, id); }
    }
  }

  /** A recorded absence goes back to a heartbeat of that very time. */
  lemma {:induction false} RecordedAbsence(init: World, events: seq<Event>, id: JobId) returns (k: nat)
    requires id !in init.missing && id in Run(init, events).missing
    ensures MissingSince(init, events, k, |events|, id) && events[k].now == Run(init, events).missing[id]
  {
    var n := |events| - 1;
    var init', e := events[..n], events[n];
    var before := Run(init, init');
    if id in before.missing {
      k := RecordedAbsence(init, init', id);
      MissingSinceLonger(init, events, k, n, id);
    } else {
      k := n;
    }
  }

  /** A job is reaped only if this heartbeat and an earlier one, more than ten
      seconds before, both showed it absent past its spawn grace, and no
      heartbeat in between of any worker it then ran on carried it. This needs
      that no absence was on record for the job when the run began. */
  lemma ReapedOnlyAfterAbsence(init: World, events: seq<Event>, i: nat, id: JobId) returns (k: nat)
    requires id !in init.missing && i < |events| && events[i].Heartbeat?
    requires var s := Run(init, events[..i]);
             Overdue(s.missing, s.jobs, id, events[i].w, events[i].active, events[i].now)
    ensures AbsentAt(init, events, i, id)
    ensures MissingSince(init, events, k, i, id) && events[i].now > events[k].now + MISSING_LIMIT
  {
    k := RecordedAbsence(init, events[..i], id);
    PrefixAt(init, events, i, k, id);
    forall m: nat | k < m < i ensures !CarriedAt(init, events, m, id) { PrefixAt(init, events, i, m, id); }
  }

  /** In particular, no worker of a job that stayed running on the same workers
      carried it since. */
  lemma NoAssignedWorkerCarried(init: World, events: seq<Event>, k: nat, i: nat, id: JobId, workers: seq<WorkerId>, m: nat)
    requires MissingSince(init, events, k, i, id) && k < m < i <= |events| && events[m].Heartbeat?
    requires var jobs := Run(init, events[..m]).jobs;
             id in jobs && jobs[id].status == Running && jobs[id].assignedWorkers == workers
    requires events[m].w in workers
    ensures id !in events[m].active
  {
    assert !CarriedAt(init, events, m, id);
  }

  /** The converse of needing a clean start: whatever absence is on record, even
      one from before a preemption and restart, the next heartbeat that shows the
      job absent past its spawn grace reaps it once that record is old enough. */
  lemma StaleRecordReaps(s: World, w: WorkerId, active: set<JobId>, now: nat, clock: nat, id: JobId)
    requires id in s.missing && Absent(s.jobs, id, w, active, now)
    ensures Step(s, Heartbeat(w, active, now, clock)).jobs[id] != s.jobs[id] <==> now > s.missing[id] + MISSING_LIMIT
  {
  }

  /** Some event of the run dropped the record of the job's absence: a heartbeat
      that carried the job, or a completion handler. */
  ghost predicate Dropped(init: World, events: seq<Event>, id: JobId) {
    exists k: nat :: DropsAt(init, events, k, id)
  }

  ghost predicate DropsAt(init: World, events: seq<Event>, k: nat, id: JobId) {
    CarriedAt(init, events, k, id) || (k < |events| && events[k] == Forget(id))
  }

  /** The job runs unchanged through the whole run. */
  ghost predicate RunsUnchanged(init: World, events: seq<Event>, id: JobId, job: Job) {
    forall k: nat :: k <= |events| ==> HasJob(Run(init, events[..k]), id, job)
  }

  ghost predicate HasJob(s: World, id: JobId, job: Job) {
    id in s.jobs && s.jobs[id] == job
  }

  /** The record of an absence after such a run: the one from before it if nothing
      dropped it, and otherwise none that is older than the spawn grace. */
  ghost predicate RecordIs(init: World, events: seq<Event>, id: JobId, start: nat) {
    var s := Run(init, events);
    if id in init.missing && !Dropped(init, events, id) then id in s.missing && s.missing[id] == init.missing[id]
    else id in s.missing ==> s.missing[id] > start + SPAWN_GRACE
  }

  lemma DroppedSnoc(init: World, events: seq<Event>, n: nat, id: JobId)
    requires |events| == n + 1
    ensures Dropped(init, events, id) <==> Dropped(init, events[..n], id) || DropsAt(init, events, n, id)
  {
    if k: nat :| DropsAt(init, events[..n], k, id) {
      PrefixAt(init, events, n, k, id);
      assert DropsAt(init, events, k, id);
    }
    if k: nat :| DropsAt(init, events, k, id) && k != n {
      PrefixAt(init, events, n, k, id);
      assert DropsAt(init, events[..n], k, id);
    }
  }

  lemma RunsUnchangedInit(init: World, events: seq<Event>, n: nat, id: JobId, job: Job)
    requires RunsUnchanged(init, events, id, job) && |events| == n + 1
    ensures RunsUnchanged(init, events[..n], id, job)
    ensures HasJob(Run(init, events[..n]), id, job) && HasJob(Run(init, events), id, job)
  {
    assert events[..n + 1] == events;
    forall k: nat | k <= n ensures HasJob(Run(init, events[..n][..k]), id, job) {
      assert events[..n][..k] == events[..k];
    }
    assert events[..n][..n] == events[..n];
  }

  /** What one event does to the record of a job that it leaves running. */
  lemma StepRecord(s: World, e: Event, id: JobId, job: Job, start: nat)
    requires HasJob(s, id, job) && HasJob(Step(s, e), id, job)
    requires job.status == Running && job.startTime == Some(start)
    ensures var drops := e == Forget(id) || (e.Heartbeat? && Carried(s.jobs, id, e.w, e.active));
            var m := Step(s, e).missing;
            if drops then id !in m
            else if id in s.missing then id in m && m[id] == s.missing[id]
            else id in m ==> m[id] > start + SPAWN_GRACE
  {
  }

  lemma {:induction false} RecordTracked(init: World, events: seq<Event>, id: JobId, job: Job, start: nat)
    requires RunsUnchanged(init, events, id, job)
    requires job.status == Running && job.startTime == Some(start)
    ensures RecordIs(init, events, id, start)
  {
    if events == [] {
      assert forall k: nat :: !DropsAt(init, events, k, id);
    } else {
      var n := |events| - 1;
      RunsUnchangedInit(init, events, n, id, job);
      RecordTracked(init, events[..n], id, job, start);
      DroppedSnoc(init, events, n, id);
      StepRecord(Run(init, events[..n]), events[n], id, job, start);
    }
  }

  /** A job that has run unchanged since its start is reaped by a heartbeat within
      sixteen seconds of that start exactly when the heartbeat shows it absent,
      an absence from before the start was on record, nothing dropped that record
      since, and it is more than ten seconds old. */
  lemma EarlyReapExactly(init: World, events: seq<Event>, id: JobId, job: Job, start: nat,
                         w: WorkerId, active: set<JobId>, now: nat)
    requires RunsUnchanged(init, events, id, job)
    requires job.status == Running && job.startTime == Some(start)
    requires now <= start + SPAWN_GRACE + MISSING_LIMIT + 1
    ensures var s := Run(init, events);
            Overdue(s.missing, s.jobs, id, w, active, now) <==>
              && Absent(s.jobs, id, w, active, now)
              && id in init.missing && !Dropped(init, events, id)
              && now > init.missing[id] + MISSING_LIMIT
  {
    RecordTracked(init, events, id, job, start);
  }

  // ----- a job that stays absent is reaped -----

  /** From event 0 on, nothing but heartbeats without the job touches it. */
  ghost predicate Undisturbed(events: seq<Event>, id: JobId, job: Job) {
    forall m :: 0 <= m < |events| ==>
      match events[m]
      case Heartbeat(v, active, _, _) => v in job.assignedWorkers ==> id !in active
      case Change(jobs) => id in jobs && jobs[id] == job
      case Forget(j) => j != id
  }

  ghost predicate WithinLimit(events: seq<Event>, job: Job, t0: nat) {
    forall m :: 0 <= m < |events| && events[m].Heartbeat? && events[m].w in job.assignedWorkers ==>
      t0 <= events[m].now <= t0 + MISSING_LIMIT
  }

  lemma LaterIsAfterSpawn(job: Job, t0: nat, now: nat)
    requires AfterSpawn(job, t0) && t0 <= now
    ensures AfterSpawn(job, now)
  {
  }

  /** The job runs and its absence since `t0` is on record. */
  ghost predicate OnRecord(s: World, id: JobId, job: Job, t0: nat) {
    HasJob(s, id, job) && id in s.missing && s.missing[id] == t0
  }

  /** Until the limit passes, the first absence stays on record and the job
      stays running. */
  lemma {:induction false} StaysOnRecord(init: World, events: seq<Event>, id: JobId, job: Job, t0: nat)
    requires HasJob(init, id, job) && id !in init.missing && job.status == Running && AfterSpawn(job, t0)
    requires events != [] && events[0].Heartbeat? && events[0].w in job.assignedWorkers && events[0].now == t0
    requires Undisturbed(events, id, job) && WithinLimit(events, job, t0)
    ensures OnRecord(Run(init, events), id, job, t0)
    decreases |events|
  {
    var n := |events| - 1;
    if n == 0 {
      RunOne(init, events);
      FirstRecord(init, events[0], id, job, t0);
    } else {
      QuietParts(events, n, id, job, t0);
      StaysOnRecord(init, events[..n], id, job, t0);
      StepKeepsRecord(Run(init, events[..n]), events[n], id, job, t0);
    }
  }

  lemma RunOne(init: World, events: seq<Event>)
    requires |events| == 1
    ensures Run(init, events) == Step(init, events[0])
  {
    assert events[..0] == [];
  }

  lemma QuietParts(events: seq<Event>, n: nat, id: JobId, job: Job, t0: nat)
    requires n < |events| && Undisturbed(events, id, job) && WithinLimit(events, job, t0)
    ensures Undisturbed(events[..n], id, job) && WithinLimit(events[..n], job, t0)
    ensures Undisturbed([events[n]], id, job) && WithinLimit([events[n]], job, t0)
  {
    assert forall m :: 0 <= m < n ==> events[..n][m] == events[m];
  }

  lemma FirstRecord(s: World, e: Event, id: JobId, job: Job, t0: nat)
    requires HasJob(s, id, job) && id !in s.missing && job.status == Running && AfterSpawn(job, t0)
    requires e.Heartbeat? && e.w in job.assignedWorkers && e.now == t0 && id !in e.active
    ensures OnRecord(Step(s, e), id, job, t0)
  {
  }

  lemma StepKeepsRecord(s: World, e: Event, id: JobId, job: Job, t0: nat)
    requires OnRecord(s, id, job, t0) && job.status == Running
    requires Undisturbed([e], id, job) && WithinLimit([e], job, t0)
    ensures OnRecord(Step(s, e), id, job, t0)
  {
    assert [e][0] == e;
  }

  /** A job that no heartbeat of any of its workers shows any more is reaped by
      the first of their heartbeats more than ten seconds after the first that
      missed it, and by none before. */
  lemma AbsentJobReaped(init: World, events: seq<Event>, id: JobId, job: Job, t0: nat,
                        w: WorkerId, active: set<JobId>, now: nat, clock: nat)
    requires HasJob(init, id, job) && id !in init.missing && job.status == Running && AfterSpawn(job, t0)
    requires events != [] && events[0].Heartbeat? && events[0].w in job.assignedWorkers && events[0].now == t0
    requires Undisturbed(events, id, job) && WithinLimit(events, job, t0)
    requires w in job.assignedWorkers && id !in active && now > t0 + MISSING_LIMIT
    ensures HasJob(Run(init, events), id, job)
    ensures var after := Run(init, events + [Heartbeat(w, active, now, clock)]);
            HasJob(after, id, ReapedJob(job, clock)) && id !in after.missing
  {
    StaysOnRecord(init, events, id, job, t0);
    LaterIsAfterSpawn(job, t0, now);
    RunSnoc(init, events, Heartbeat(w, active, now, clock));
  }
}
