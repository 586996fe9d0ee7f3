/** Runs of the controller, built from its own operations, that show where its
    guarantees end. */
module Scenarios {
  import opened Common
  import opened JobStatusText
  import opened Allocations
  import opened Release
  import opened HandOut
  import opened Reaper
  import opened Controller
  import opened Eviction

  /** A worker on which nothing runs has its whole machine free. */
  lemma NothingRuns(workers: map<WorkerId, Worker>, jobs: map<JobId, Job>, w: WorkerId)
    requires Coherent(workers, jobs) && w in workers && forall id :: id in jobs ==> Idle(jobs[id])
    ensures workers[w].alloc.allocatedMemory == 0 && |workers[w].alloc.availableCores| == workers[w].resources.cpuCores
  {
    assert InStep(workers, jobs, w);
    assert Hosted(jobs, w) == {};
    NothingHosted(w, workers[w].resources, jobs);
  }

  function NewJob(id: JobId, qos: Qos, cores: nat): Job {
    Job(id, Pending, qos, cores, 0, map[], [], map[], map[], None, None)
  }

  /** A controller with the given workers and no jobs. */
  method Workers(ws: seq<WorkerId>, cores: nat) returns (c: Controller)
    ensures fresh(c) && c.Valid() && c.jobs == map[] && c.missingJobs == map[]
    ensures forall w :: w in ws ==> w in c.workers && c.workers[w].resources.cpuCores == cores
  {
    c := new Controller();
    for i := 0 to |ws|
      invariant fresh(c) && c.Valid() && c.jobs == map[] && c.missingJobs == map[]
      invariant forall w :: w in ws[..i] ==> w in c.workers && c.workers[w].resources.cpuCores == cores
    {
      assert ws[..i + 1] == ws[..i] + [ws[i]];
      c.RegisterWorker(ws[i], Hardware(cores, 0, map[]));
    }
    assert ws[..|ws|] == ws;
  }

  /** Starts a job where nothing runs yet. */
  method StartFirst(c: Controller, ws: seq<WorkerId>, now: nat)
    requires c.Valid() && Distinct(ws) && c.jobs.Keys == {1}
    requires c.jobs[1].status == Pending && c.jobs[1].reqMemory == 0 && c.jobs[1].gresReq == map[]
    requires forall w :: w in ws ==> w in c.workers && c.workers[w].resources.cpuCores == c.jobs[1].reqCores
    modifies c`workers, c`jobs
    ensures c.Valid() && SameMachines(c.workers, old(c.workers)) && c.jobs.Keys == {1}
    ensures Started(old(c.jobs)[1], c.jobs[1], ws, now)
  {
    forall w | w in ws ensures w in c.workers && Fits(c.workers[w].alloc, c.jobs[1]) {
      NothingRuns(c.workers, c.jobs, w);
    }
    ghost var before, job := c.workers, c.jobs[1];
    c.StartJob(1, ws, now);
    forall w | w in ws ensures w in c.jobs[1].allocatedCores && |c.jobs[1].allocatedCores[w]| == job.reqCores {
      assert HoldsOn(c.jobs[1], w, before[w].alloc);
    }
  }

  ghost predicate Started(was: Job, job: Job, ws: seq<WorkerId>, now: nat) {
    && job.status == Running && job.assignedWorkers == ws && job.startTime == Some(now)
    && job.id == was.id && job.qos == was.qos && job.reqCores == was.reqCores
    && job.reqMemory == was.reqMemory && job.gresReq == was.gresReq
    && forall w :: w in ws ==> w in job.allocatedCores && |job.allocatedCores[w]| == job.reqCores
  }

  /** A controller with one job, just started on the given workers. */
  method OneJobRunning(ws: seq<WorkerId>, cores: nat, now: nat) returns (c: Controller)
    requires Distinct(ws)
    ensures fresh(c) && c.Valid() && c.missingJobs == map[] && c.jobs.Keys == {1}
    ensures forall w :: w in ws ==> w in c.workers && c.workers[w].resources.cpuCores == cores
    ensures 2 !in c.jobs && Started(NewJob(1, Preemptible, cores), c.jobs[1], ws, now)
  {
    c := Workers(ws, cores);
    c.Submit(NewJob(1, Preemptible, cores));
    StartFirst(c, ws, now);
  }

  /** The heartbeat that first misses the only job. */
  lemma MissedOnce(jobs: map<JobId, Job>, w: WorkerId, now: nat, clock: nat)
    requires jobs.Keys == {1} && Absent(jobs, 1, w, {}, now)
    ensures MissingAfter(map[], jobs, w, {}, now) == map[1 := now]
    ensures JobsAfter(map[], jobs, w, {}, now, clock) == jobs
  {
  }

  /** A heartbeat that misses it once more, over ten seconds later. */
  lemma MissedTooLong(jobs: map<JobId, Job>, t: nat, w: WorkerId, now: nat, clock: nat)
    requires jobs.Keys == {1} && Absent(jobs, 1, w, {}, now) && now > t + MISSING_LIMIT
    ensures JobsAfter(map[1 := t], jobs, w, {}, now, clock) == map[1 := ReapedJob(jobs[1], clock)]
  {
    assert Overdue(map[1 := t], jobs, 1, w, {}, now);
  }

  /** A two-node job is reaped because the heartbeats of one worker miss it; it
      still lists both workers. */
  method ReapedOnTwo() returns (c: Controller)
    ensures fresh(c) && c.Valid() && 1 in c.jobs && c.jobs[1].assignedWorkers == ["a", "b"]
    ensures c.jobs[1].status == Failed(REAP_REASON) && c.jobs[1].endTime == Some(17)
    ensures forall w :: w in c.jobs[1].assignedWorkers ==> w in c.workers
  {
    var ws: seq<WorkerId> := ["a", "b"];
    c := OneJobRunning(ws, 1, 0);
    ghost var jobs := c.jobs;
    assert RunsOn(jobs[1], "a") by { assert ws[0] == "a"; }
    MissedOnce(jobs, "a", 6, 6);
    c.ReconcileMissingWorkerJobs("a", {}, 6, 6);
    MissedTooLong(jobs, 6, "a", 17, 17);
    c.ReconcileMissingWorkerJobs("a", {}, 17, 17);
  }

  /** Then the other worker's report that the job has started arrives. The job
      runs again according to the table, while its resources are free according
      to the workers' records. */
  method LateReport() returns (c: Controller)
    ensures fresh(c) && !c.Valid() && 1 in c.jobs && c.jobs[1].status == Running && c.jobs[1].endTime == Some(17)
  {
    c := ReapedOnTwo();
    c.JobStarted(1);
  }

  /** Preempts the only job and starts it again; the record of absences stays. */
  method Restart(c: Controller, ws: seq<WorkerId>, now: nat)
    requires c.Valid() && Distinct(ws) && c.jobs.Keys == {1}
    requires c.jobs[1].status == Running && c.jobs[1].reqMemory == 0 && c.jobs[1].gresReq == map[]
    requires forall w :: w in ws ==> w in c.workers && c.workers[w].resources.cpuCores == c.jobs[1].reqCores
    modifies c`workers, c`jobs
    ensures c.Valid() && c.jobs.Keys == {1} && Started(old(c.jobs)[1], c.jobs[1], ws, now)
  {
    c.PreemptJob(1);
    StartFirst(c, ws, now);
  }

  /** A job is missed by one heartbeat, preempted and started again. Six seconds
      after that start, well within its grace, the first heartbeat that does not
      show it reaps it. */
  method RestartedJobReapedEarly(w: WorkerId) returns (c: Controller)
    ensures fresh(c) && c.Valid() && 1 in c.jobs && c.jobs[1].startTime == Some(100)
    ensures c.jobs[1].status == Failed(REAP_REASON) && c.jobs[1].endTime == Some(106)
  {
    var ws: seq<WorkerId> := [w];
    c := OneJobRunning(ws, 1, 0);
    assert w in ws by { assert ws[0] == w; }
    MissedOnce(c.jobs, w, 6, 6);
    c.ReconcileMissingWorkerJobs(w, {}, 6, 6);
    Restart(c, ws, 100);
    MissedTooLong(c.jobs, 6, w, 106, 106);
    c.ReconcileMissingWorkerJobs(w, {}, 106, 106);
  }

  /** A report that comes right after a preemption finds no worker to disagree with. */
  method ReportAfterPreemption(c: Controller, id: JobId)
    requires c.Valid() && id in c.jobs && c.jobs[id].status == Running
    modifies c
    ensures c.Valid() && id in c.jobs && c.jobs[id].status == Running && c.jobs[id].assignedWorkers == []
  {
    c.PreemptJob(id);
    c.JobStarted(id);
  }

  lemma AtMost(n: nat, used: set<nat>)
    ensures |Free(n, used)| <= n
  {
  }

  /** A worker comes back with one core while a preemptible job on it still lists
      two; an urgent job for two cores is submitted. */
  method ShrunkWorker(w: WorkerId) returns (c: Controller)
    ensures fresh(c) && c.Valid() && w in c.workers && c.workers[w].resources == Hardware(1, 0, map[])
    ensures 1 in c.jobs && RunsOn(c.jobs[1], w) && c.jobs[1].qos == Preemptible
    ensures w in c.jobs[1].allocatedCores && |c.jobs[1].allocatedCores[w]| == 2
    ensures 2 in c.jobs && c.jobs[2] == NewJob(2, Interactive, 2)
  {
    var ws: seq<WorkerId> := [w];
    c := OneJobRunning(ws, 2, 0);
    assert w in ws by { assert ws[0] == w; }
    assert RunsOn(c.jobs[1], w);
    c.RegisterWorker(w, Hardware(1, 0, map[]));
    SubmitUrgent(c);
  }

  method SubmitUrgent(c: Controller)
    requires c.Valid() && 2 !in c.jobs
    modifies c`jobs
    ensures c.Valid() && c.jobs == old(c.jobs)[2 := NewJob(2, Interactive, 2)]
  {
    c.Submit(NewJob(2, Interactive, 2));
  }

  /** The urgent job passes the test, the victim is evicted, and the worker has
      one core for it. */
  method EvictionFallsShort(w: WorkerId) returns (c: Controller, worker: Worker, jobs: map<JobId, Job>)
    ensures fresh(c) && c.Valid() && w in c.workers && 2 in jobs
    ensures Eligible(worker, jobs, jobs[2]) && c.jobs == Evicted(jobs, Victims(worker.alloc, jobs))
    ensures |c.workers[w].alloc.availableCores| < jobs[2].reqCores
  {
    c := ShrunkWorker(w);
    worker, jobs := c.workers[w], c.jobs;
    TwoCoresListed(w, c.workers, jobs, worker.alloc);
    c.EvictAll(Victims(worker.alloc, jobs));
    OneCoreFree(w, c.workers, c.jobs);
  }

  lemma OneCoreFree(w: WorkerId, workers: map<WorkerId, Worker>, jobs: map<JobId, Job>)
    requires Coherent(workers, jobs) && w in workers && workers[w].resources.cpuCores == 1
    ensures |workers[w].alloc.availableCores| <= 1
  {
    assert InStep(workers, jobs, w);
    AtMost(1, UsedCores(jobs, w));
  }

  lemma TwoCoresListed(w: WorkerId, workers: map<WorkerId, Worker>, jobs: map<JobId, Job>, a: Allocation)
    requires Coherent(workers, jobs) && w in workers && workers[w].alloc == a
    requires 1 in jobs && RunsOn(jobs[1], w) && jobs[1].qos == Preemptible
    requires w in jobs[1].allocatedCores && |jobs[1].allocatedCores[w]| == 2
    ensures Lens(CoreLists(a), Victims(a, jobs)) >= 2
  {
    assert InStep(workers, jobs, w);
    ListsOnRecord(a, w, workers[w].resources, jobs, 1);
    assert 1 in Victims(a, jobs);
    LensRemove(CoreLists(a), Victims(a, jobs), 1);
  }
}
