/** The controller's job table and worker records, changed in place by starts,
    finishes, preemptions, registrations and heartbeats. */
module Controller {
  import opened Common
  import opened JobStatusText
  import opened Allocations
  import opened Release
  import opened HandOut
  import opened Reaper

  datatype Worker = Worker(resources: Hardware, alloc: Allocation)

  ghost predicate MemoryFits(jobs: map<JobId, Job>) {
    forall w :: Memory(jobs, Hosted(jobs, w)) < TWO_64
  }

  ghost predicate SoundTable(jobs: map<JobId, Job>) {
    WellKeyed(jobs) && Disjoint(jobs) && MemoryFits(jobs)
  }

  /** The record kept for a worker is the one the job table gives. */
  ghost predicate InStep(workers: map<WorkerId, Worker>, jobs: map<JobId, Job>, w: WorkerId)
    requires w in workers
  {
    Agrees(workers[w].alloc, Rebuilt(w, workers[w].resources, jobs))
  }

  ghost predicate Coherent(workers: map<WorkerId, Worker>, jobs: map<JobId, Job>) {
    SoundTable(jobs) && forall w :: w in workers ==> InStep(workers, jobs, w)
  }

  /** Same workers with the same hardware. */
  ghost predicate SameMachines(a: map<WorkerId, Worker>, b: map<WorkerId, Worker>) {
    a.Keys == b.Keys && forall w :: w in a ==> a[w].resources == b[w].resources
  }

  // ----- a job leaves the set of running ones -----

  lemma MemoryShrinks(w: WorkerId, res: Hardware, jobs: map<JobId, Job>, id: JobId)
    requires MemoryFits(jobs)
    ensures Memory(jobs - {id}, Hosted(jobs - {id}, w)) < TWO_64
  {
    if id in jobs && RunsOn(jobs[id], w) { RebuiltAdds(w, res, jobs, id); } else { RebuiltIgnores(w, res, jobs, id); }
  }

  lemma SoundWithout(jobs: map<JobId, Job>, id: JobId)
    requires SoundTable(jobs)
    ensures SoundTable(jobs - {id})
  {
    var rest := jobs - {id};
    forall w ensures Memory(rest, Hosted(rest, w)) < TWO_64 { MemoryShrinks(w, Hardware(0, 0, map[]), jobs, id); }
    forall i, j, w | i in Hosted(rest, w) && j in Hosted(rest, w) && i != j ensures Apart(rest[i], rest[j], w) {
      assert i in Hosted(jobs, w) && j in Hosted(jobs, w);
    }
  }

  /** The job runs on no worker. */
  ghost predicate Idle(job: Job) {
    job.status != Running || job.assignedWorkers == []
  }

  /** A table entry that does not run anywhere is as good as none. */
  lemma IdleEntry(rest: map<JobId, Job>, id: JobId, job: Job)
    requires id !in rest && Idle(job) && job.id == id
    ensures SoundTable(rest) ==> SoundTable(rest[id := job])
    ensures forall w, res :: Rebuilt(w, res, rest[id := job]) == Rebuilt(w, res, rest)
  {
    var jobs := rest[id := job];
    assert jobs - {id} == rest;
    forall w, res
      ensures Rebuilt(w, res, jobs) == Rebuilt(w, res, rest)
      ensures Memory(jobs, Hosted(jobs, w)) == Memory(rest, Hosted(rest, w))
    {
      RebuiltIgnores(w, res, jobs, id);
    }
    if SoundTable(rest) {
      forall i, j, w | i in Hosted(jobs, w) && j in Hosted(jobs, w) && i != j ensures Apart(jobs[i], jobs[j], w) {
        assert i in Hosted(rest, w) && j in Hosted(rest, w);
      }
      forall w ensures Memory(jobs, Hosted(jobs, w)) < TWO_64 {
        RebuiltIgnores(w, Hardware(0, 0, map[]), jobs, id);
      }
    }
  }

  // ----- a job joins the set of running ones -----

  /** The scheduler's check before it hands out a worker's resources: the number
      of free cores is narrowed to 32 bits, memory is counted in mebibytes. */
  predicate CanHost(worker: Worker, job: Job) {
    && job.reqCores <= |worker.alloc.availableCores| % TWO_32
    && SaturatingSub(worker.resources.totalMemory / 1024 / 1024, worker.alloc.allocatedMemory) >= job.reqMemory
    && Enough(worker.alloc.availableGres, job.gresReq)
  }

  /** The check in plain terms, for a worker with fewer than 2^32 free cores: enough
      free cores, enough free devices of every kind, and, unless the job asks for
      none, enough memory that is not handed out. */
  lemma CheckExactly(worker: Worker, job: Job)
    requires |worker.alloc.availableCores| < 0x1_0000_0000
    ensures CanHost(worker, job) <==>
            && job.reqCores <= |worker.alloc.availableCores|
            && (job.reqMemory > 0 ==> worker.alloc.allocatedMemory + job.reqMemory <= worker.resources.totalMemory / 1_048_576)
            && forall name :: name in job.gresReq ==>
                 if name in worker.alloc.availableGres then job.gresReq[name] <= |worker.alloc.availableGres[name]|
                 else job.gresReq[name] == 0
  {
    var n := worker.resources.totalMemory;
    assert n / 1024 / 1024 == n / 1_048_576;
    assert Enough(worker.alloc.availableGres, job.gresReq) <==>
           forall name :: name in job.gresReq ==>
             if name in worker.alloc.availableGres then job.gresReq[name] <= |worker.alloc.availableGres[name]|
             else job.gresReq[name] == 0;
  }

  /** What the unchecked drains and the addition of a start need. */
  predicate Fits(a: Allocation, job: Job) {
    && job.reqCores <= |a.availableCores| && Enough(a.availableGres, job.gresReq)
    && a.allocatedMemory + job.reqMemory < TWO_64
  }

  /** The scheduler's check is enough for them. */
  lemma CheckSuffices(worker: Worker, job: Job)
    requires CanHost(worker, job) && worker.alloc.allocatedMemory < TWO_64
    ensures Fits(worker.alloc, job)
  {
  }

  /** The job as it runs on the selected workers. */
  function StartedJob(job: Job, selected: seq<WorkerId>, cores: map<WorkerId, seq<nat>>, gres: map<WorkerId, Gres>, now: nat): Job {
    job.(status := Running, assignedWorkers := selected, allocatedCores := cores, allocatedGres := gres, startTime := Some(now))
  }

  ghost predicate HoldsEverywhere(workers: map<WorkerId, Worker>, job: Job) {
    forall w :: w in job.assignedWorkers ==> w in workers && Fits(workers[w].alloc, job) && HoldsOn(job, w, workers[w].alloc)
  }

  lemma StartedMemory(workers: map<WorkerId, Worker>, jobs: map<JobId, Job>, job: Job, w: WorkerId)
    requires Coherent(workers, jobs) && job.status == Running && HoldsEverywhere(workers, job)
    requires job.id in jobs ==> jobs[job.id].status != Running
    ensures var jobs' := jobs[job.id := job]; Memory(jobs', Hosted(jobs', w)) < TWO_64
  {
    var jobs', res := jobs[job.id := job], Hardware(0, 0, map[]);
    assert jobs' - {job.id} == jobs - {job.id};
    RebuiltIgnores(w, res, jobs, job.id);
    if RunsOn(job, w) {
      RecordedMemory(workers, jobs, w);
      RebuiltAdds(w, res, jobs', job.id);
    } else {
      RebuiltIgnores(w, res, jobs', job.id);
    }
  }

  lemma RecordedMemory(workers: map<WorkerId, Worker>, jobs: map<JobId, Job>, w: WorkerId)
    requires Coherent(workers, jobs) && w in workers
    ensures workers[w].alloc.allocatedMemory == Memory(jobs, Hosted(jobs, w))
  {
    assert InStep(workers, jobs, w);
    AgreedMemory(workers[w].alloc, w, workers[w].resources, jobs);
  }

  lemma AgreedMemory(a: Allocation, w: WorkerId, res: Hardware, jobs: map<JobId, Job>)
    requires Agrees(a, Rebuilt(w, res, jobs)) && Memory(jobs, Hosted(jobs, w)) < TWO_64
    ensures a.allocatedMemory == Memory(jobs, Hosted(jobs, w))
  {
  }

  lemma StartedApart(workers: map<WorkerId, Worker>, jobs: map<JobId, Job>, job: Job, w: WorkerId, i: JobId, j: JobId)
    requires Coherent(workers, jobs) && job.status == Running && HoldsEverywhere(workers, job)
    requires job.id in jobs ==> jobs[job.id].status != Running
    requires var jobs' := jobs[job.id := job]; i in Hosted(jobs', w) && j in Hosted(jobs', w) && i != j
    ensures var jobs' := jobs[job.id := job]; Apart(jobs'[i], jobs'[j], w)
  {
    assert i != job.id ==> i in Hosted(jobs, w);
    assert j != job.id ==> j in Hosted(jobs, w);
    if i == job.id || j == job.id {
      assert w in job.assignedWorkers && InStep(workers, jobs, w);
      GivenApart(workers[w].alloc, w, workers[w].resources, jobs, job, if i == job.id then j else i);
    }
  }

  lemma StartedSound(workers: map<WorkerId, Worker>, jobs: map<JobId, Job>, job: Job)
    requires Coherent(workers, jobs) && job.status == Running && HoldsEverywhere(workers, job)
    requires job.id in jobs ==> jobs[job.id].status != Running
    ensures SoundTable(jobs[job.id := job])
  {
    var jobs' := jobs[job.id := job];
    forall w ensures Memory(jobs', Hosted(jobs', w)) < TWO_64 { StartedMemory(workers, jobs, job, w); }
    forall i, j, w | i in Hosted(jobs', w) && j in Hosted(jobs', w) && i != j ensures Apart(jobs'[i], jobs'[j], w) {
      StartedApart(workers, jobs, job, w, i, j);
    }
  }

  lemma StartedElsewhere(w: WorkerId, res: Hardware, jobs: map<JobId, Job>, job: Job)
    requires w !in job.assignedWorkers && (job.id in jobs ==> jobs[job.id].status != Running)
    ensures Rebuilt(w, res, jobs[job.id := job]) == Rebuilt(w, res, jobs)
  {
    var jobs' := jobs[job.id := job];
    assert jobs' - {job.id} == jobs - {job.id};
    RebuiltIgnores(w, res, jobs, job.id);
    RebuiltIgnores(w, res, jobs', job.id);
  }

  class Controller {
    var workers: map<WorkerId, Worker>
    var jobs: map<JobId, Job>
    var missingJobs: Missing

    /** Every worker's record, maintained step by step, is the one that
        rebuilding from the job table would give. */
    ghost predicate Valid()
      reads this
    {
      Coherent(workers, jobs)
    }

    constructor ()
      ensures Valid() && workers == map[] && jobs == map[] && missingJobs == map[]
    {
      workers, jobs, missingJobs := map[], map[], map[];
      NoJobs();
    }

    /** Puts a job into the table, in place of an older one with its id if there
        is one. */
    method Submit(job: Job)
      modifies this`jobs
      ensures jobs == old(jobs)[job.id := job]
      ensures old(Valid()) && Idle(job) && (job.id in old(jobs) ==> Idle(old(jobs)[job.id])) ==> Valid()
    {
      if Coherent(workers, jobs) && Idle(job) && (job.id in jobs ==> Idle(jobs[job.id])) {
        IdlePut(workers, jobs, job);
      }
      jobs := jobs[job.id := job];
    }

    /** A worker connects or reconnects: its record is rebuilt. */
    method RegisterWorker(w: WorkerId, resources: Hardware)
      requires Valid()
      modifies this`workers
      ensures Valid() && workers.Keys == old(workers).Keys + {w} && workers[w].resources == resources
      ensures forall v :: v in old(workers) && v != w ==> workers[v] == old(workers)[v]
    {
      var alloc := RebuildWorkerAllocations(w, resources, jobs);
      workers := workers[w := Worker(resources, alloc)];
      forall v | v in workers ensures InStep(workers, jobs, v) {
        if v != w { assert InStep(old(workers), jobs, v); }
      }
    }

    method RemoveWorker(w: WorkerId)
      requires Valid()
      modifies this`workers
      ensures Valid() && workers == old(workers) - {w}
    {
      workers := workers - {w};
      forall v | v in workers ensures InStep(workers, jobs, v) { assert InStep(old(workers), jobs, v); }
    }

    /** Drops a finished job from the table. */
    method RemoveJob(id: JobId)
      requires Valid() && (id in jobs ==> jobs[id].status != Running)
      modifies this`jobs
      ensures Valid() && jobs == old(jobs) - {id}
    {
      SoundWithout(jobs, id);
      forall w | w in workers ensures InStep(workers, jobs - {id}, w) {
        assert InStep(workers, jobs, w);
        RebuiltIgnores(w, workers[w].resources, jobs, id);
      }
      jobs := jobs - {id};
    }

    /** Takes a job's resources back on every worker it was assigned to. */
    method ReleaseJobResources(id: JobId)
      requires Valid() && id in jobs
      modifies this`workers
      ensures SameMachines(workers, old(workers))
      ensures forall w :: w in workers ==> InStep(workers, jobs - {id}, w)
    {
      var job := jobs[id];
      for i := 0 to |job.assignedWorkers|
        invariant SameMachines(workers, old(workers))
        invariant ReleasedOn(workers, jobs, id, job.assignedWorkers[..i])
      {
        var w := job.assignedWorkers[i];
        assert job.assignedWorkers[..i + 1] == job.assignedWorkers[..i] + [w];
        ReleaseAt(w, id, job, job.assignedWorkers[..i]);
      }
      assert job.assignedWorkers[..|job.assignedWorkers|] == job.assignedWorkers;
      ReleasedEverywhere(workers, jobs, id);
    }

    method ReleaseAt(w: WorkerId, id: JobId, job: Job, ghost seen: seq<WorkerId>)
      requires SoundTable(jobs) && id in jobs && jobs[id] == job
      requires ReleasedOn(workers, jobs, id, seen)
      modifies this`workers
      ensures SameMachines(workers, old(workers))
      ensures ReleasedOn(workers, jobs, id, seen + [w])
    {
      if w in workers {
        var worker := workers[w];
        ghost var table := if w in seen then jobs - {id} else jobs;
        assert InStep(workers, table, w);
        if id in worker.alloc.assignedJobs {
          var alloc := ReleaseOnWorker(worker.alloc, w, worker.resources, id, job, table);
          workers := workers[w := worker.(alloc := alloc)];
        } else {
          RebuiltIgnores(w, worker.resources, table, id);
        }
        assert table - {id} == jobs - {id};
        assert InStep(workers, jobs - {id}, w);
      }
      ReleasedNext(old(workers), workers, jobs, id, seen, w);
    }

    /** Takes a job's resources back and replaces its entry. */
    method Retire(id: JobId, job: Job)
      requires Valid() && id in jobs && job.id == id
      modifies this`workers, this`jobs
      ensures jobs == old(jobs)[id := job] && SameMachines(workers, old(workers))
      ensures Idle(job) ==> Valid()
    {
      ReleaseJobResources(id);
      ghost var rest := jobs - {id};
      SoundWithout(jobs, id);
      if Idle(job) { IdleEntry(rest, id, job); }
      assert jobs[id := job] == rest[id := job];
      jobs := jobs[id := job];
      assert forall w :: w in workers ==> InStep(workers, rest, w);
    }

    /** Ends a job, with a final status if its callers keep to the rules. */
    method FinalizeJob(id: JobId, status: JobStatus, now: nat)
      requires Valid()
      modifies this`workers, this`jobs
      ensures SameMachines(workers, old(workers))
      ensures jobs == if id in old(jobs) then old(jobs)[id := old(jobs)[id].(status := status, endTime := Some(now))]
                      else old(jobs)
      ensures status != Running ==> Valid()
    {
      if id in jobs {
        Retire(id, jobs[id].(status := status, endTime := Some(now)));
      }
    }

    /** A worker reports that a job has started: whatever the job's status, it
        becomes running. */
    method JobStarted(id: JobId)
      modifies this`jobs
      ensures jobs == if id in old(jobs) then MarkedRunning(old(jobs), id) else old(jobs)
      ensures id in old(jobs) ==> jobs[id] == old(jobs)[id].(status := Running)
      ensures old(Valid()) && id !in old(jobs) ==> Valid()
      ensures old(Valid()) && id in old(jobs) ==>
                (Valid() <==> old(jobs)[id].status == Running
                              || (NoneKnown(workers, old(jobs)[id]) && SoundTable(jobs)))
      // A late report for a job whose workers are all known breaks the invariant
      // exactly when the job had ended while it still lists workers.
      ensures old(Valid()) && id in old(jobs) && (forall w :: w in old(jobs)[id].assignedWorkers ==> w in workers) ==>
                (Valid() <==> old(jobs)[id].status == Running || old(jobs)[id].assignedWorkers == [])
    {
      if id in jobs {
        ghost var before := jobs;
        jobs := jobs[id := jobs[id].(status := Running)];
        if Coherent(workers, before) { LateStart(workers, before, id); }
      }
    }

    /** A heartbeat brings the worker's present hardware; the free lists stay. */
    method UpdateHardware(w: WorkerId, hardware: Hardware)
      modifies this`workers
      ensures workers == if w in old(workers) then old(workers)[w := old(workers)[w].(resources := hardware)]
                         else old(workers)
      ensures old(Valid()) && w in old(workers) ==>
                (Valid() <==> NothingFreeBetween(w, old(workers)[w].resources, hardware, jobs))
    {
      if w in workers {
        ghost var before := workers;
        workers := workers[w := workers[w].(resources := hardware)];
        if Coherent(before, jobs) { HardwareChange(before, jobs, w, hardware); }
      }
    }

    /** Preempts jobs, in an arbitrary order. */
    method EvictAll(victims: set<JobId>)
      requires Valid()
      modifies this`workers, this`jobs
      ensures Valid() && SameMachines(workers, old(workers))
      ensures jobs == Evicted(old(jobs), victims) && EvictedPlainly(old(jobs), jobs, victims)
    {
      var todo := victims;
      ghost var seen: set<JobId> := {};
      assert Evicted(jobs, {}) == jobs;
      while todo != {}
        invariant Valid() && SameMachines(workers, old(workers))
        invariant todo <= victims && seen == victims - todo
        invariant jobs == Evicted(old(jobs), seen)
        decreases |todo|
      {
        var id :| id in todo;
        EvictedNext(old(jobs), seen, id);
        PreemptJob(id);
        todo, seen := todo - {id}, seen + {id};
      }
      assert seen == victims;
      EvictedIsPlain(old(jobs), victims);
    }

    /** Sends a running job back to the queue. */
    method PreemptJob(id: JobId)
      requires Valid()
      modifies this`workers, this`jobs
      ensures Valid() && SameMachines(workers, old(workers))
      ensures if id in old(jobs) && old(jobs)[id].status == Running
              then jobs == old(jobs)[id := PreemptedJob(old(jobs)[id])] && BackInQueue(old(jobs)[id], jobs[id])
              else jobs == old(jobs) && workers == old(workers)
    {
      if id in jobs && jobs[id].status == Running {
        Retire(id, PreemptedJob(jobs[id]));
      }
    }

    /** A heartbeat of worker `w` that carries the jobs `active`; `clock` is the
        time at which a reaped job is finalized. */
    method ReconcileMissingWorkerJobs(w: WorkerId, active: set<JobId>, now: nat, clock: nat)
      requires Valid()
      modifies this
      ensures Valid() && SameMachines(workers, old(workers))
      ensures missingJobs == MissingAfter(old(missingJobs), old(jobs), w, active, now)
      ensures jobs == JobsAfter(old(missingJobs), old(jobs), w, active, now, clock)
    {
      ghost var before, table := missingJobs, jobs;
      var missing, reap := Scan(missingJobs, jobs, w, active, now);
      missingJobs := missing;
      ReapAll(reap, clock);
      ScannedThenCleared(before, table, w, active, now, missing, reap);
      ReapedIsOverdue(before, table, w, active, now, missing, reap, clock);
    }

    method ReapAll(reap: seq<JobId>, clock: nat)
      requires Valid()
      modifies this
      ensures Valid() && SameMachines(workers, old(workers))
      ensures missingJobs == Cleared(old(missingJobs), reap)
      ensures jobs == ReapedTable(old(jobs), reap, clock)
    {
      NothingReaped(missingJobs, jobs, clock);
      for k := 0 to |reap|
        invariant Valid() && SameMachines(workers, old(workers))
        invariant missingJobs == Cleared(old(missingJobs), reap[..k])
        invariant jobs == ReapedTable(old(jobs), reap[..k], clock)
      {
        assert reap[..k + 1] == reap[..k] + [reap[k]];
        ReapedNext(old(missingJobs), old(jobs), reap[..k], reap[k], clock);
        missingJobs := missingJobs - {reap[k]};
        FinalizeJob(reap[k], Failed(REAP_REASON), clock);
      }
      assert reap[..|reap|] == reap;
    }

    /** Each selected worker gives its first free cores and devices. */
    method HandOutTo(job: Job, selected: seq<WorkerId>)
      returns (cores: map<WorkerId, seq<nat>>, gres: map<WorkerId, Gres>)
      requires Distinct(selected)
      requires forall w :: w in selected ==> w in workers && Fits(workers[w].alloc, job)
      modifies this`workers
      ensures workers.Keys == old(workers).Keys
      ensures forall w :: w in workers ==> workers[w] == if w in selected then Served(old(workers)[w], job) else old(workers)[w]
      ensures forall w :: w in selected ==> GaveTo(old(workers)[w].alloc, job, w, cores, gres)
    {
      cores, gres := map[], map[];
      for i := 0 to |selected|
        invariant workers.Keys == old(workers).Keys
        invariant forall w :: w in workers ==>
                    workers[w] == if w in selected[..i] then Served(old(workers)[w], job) else old(workers)[w]
        invariant forall w :: w in selected[..i] ==> GaveTo(old(workers)[w].alloc, job, w, cores, gres)
      {
        var w := selected[i];
        assert w !in selected[..i];
        assert selected[..i + 1] == selected[..i] + [w];
        var worker := workers[w];
        var alloc, c, g := GiveToJob(worker.alloc, job);
        workers := workers[w := worker.(alloc := alloc)];
        cores, gres := cores[w := c], gres[w := g];
      }
      assert selected[..|selected|] == selected;
    }

    /** Starts a job on the selected workers. */
    method StartJob(id: JobId, selected: seq<WorkerId>, now: nat)
      requires Valid() && id in jobs && jobs[id].status != Running && Distinct(selected)
      requires forall w :: w in selected ==> w in workers && Fits(workers[w].alloc, jobs[id])
      modifies this`workers, this`jobs
      ensures Valid() && SameMachines(workers, old(workers))
      ensures id in jobs && jobs == old(jobs)[id := jobs[id]]
      ensures jobs[id] == StartedJob(old(jobs)[id], selected, jobs[id].allocatedCores, jobs[id].allocatedGres, now)
      ensures forall w :: w in selected ==> HoldsOn(jobs[id], w, old(workers)[w].alloc)
      ensures RunsAsAsked(old(jobs)[id], jobs[id], selected, now)
      ensures forall w :: w in selected ==> GotWhatItAsked(jobs[id], w, old(workers)[w].alloc)
    {
      var job := jobs[id];
      var cores, gres := HandOutTo(job, selected);
      var started := StartedJob(job, selected, cores, gres, now);
      forall w | w in selected ensures HoldsOn(started, w, old(workers)[w].alloc) {
        assert GaveTo(old(workers)[w].alloc, job, w, cores, gres);
      }
      StartedSound(old(workers), jobs, started);
      forall w | w in selected ensures GotWhatItAsked(started, w, old(workers)[w].alloc) {
        HoldsIsAsked(started, w, old(workers)[w].alloc);
      }
      forall w | w in workers ensures InStep(workers, jobs[id := started], w) {
        WorkerStarted(old(workers), workers, jobs, job, started, w);
      }
      jobs := jobs[id := started];
    }
  }

  /** The job is pending as if it had never started: it has no worker, no core, no
      device and no start time, and asks for what it asked for before. */
  ghost predicate BackInQueue(was: Job, now: Job) {
    && now.status == Pending && now.startTime == None && now.assignedWorkers == []
    && (forall w :: CoresOn(now, w) == [] && GresOn(now, w) == map[])
    && now.id == was.id && now.qos == was.qos && now.reqCores == was.reqCores
    && now.reqMemory == was.reqMemory && now.gresReq == was.gresReq && now.endTime == was.endTime
  }

  function PreemptedJob(job: Job): Job {
    job.(status := Pending, startTime := None, assignedWorkers := [], allocatedCores := map[], allocatedGres := map[])
  }

  ghost function Evicted(jobs: map<JobId, Job>, victims: set<JobId>): map<JobId, Job> {
    map id | id in jobs :: if id in victims && jobs[id].status == Running then PreemptedJob(jobs[id]) else jobs[id]
  }

  /** Exactly the running jobs of the set are back in the queue. */
  ghost predicate EvictedPlainly(was: map<JobId, Job>, now: map<JobId, Job>, victims: set<JobId>) {
    && now.Keys == was.Keys
    && forall id :: id in was ==>
         if id in victims && was[id].status == Running then BackInQueue(was[id], now[id]) else now[id] == was[id]
  }

  lemma EvictedIsPlain(jobs: map<JobId, Job>, victims: set<JobId>)
    ensures EvictedPlainly(jobs, Evicted(jobs, victims), victims)
  {
    forall id | id in jobs && id in victims && jobs[id].status == Running
      ensures BackInQueue(jobs[id], Evicted(jobs, victims)[id])
    {
      PreemptedIsBack(jobs[id]);
    }
  }

  lemma PreemptedIsBack(job: Job)
    ensures BackInQueue(job, PreemptedJob(job))
  {
  }

  lemma EvictedNext(jobs: map<JobId, Job>, seen: set<JobId>, id: JobId)
    requires id !in seen
    ensures var now := Evicted(jobs, seen);
            Evicted(jobs, seen + {id}) ==
            if id in now && now[id].status == Running then now[id := PreemptedJob(now[id])] else now
  {
  }

  /** Replacing one idle entry by another changes no record. */
  lemma IdlePut(workers: map<WorkerId, Worker>, jobs: map<JobId, Job>, job: Job)
    requires Coherent(workers, jobs) && Idle(job) && (job.id in jobs ==> Idle(jobs[job.id]))
    ensures Coherent(workers, jobs[job.id := job])
  {
    var rest := jobs - {job.id};
    SoundWithout(jobs, job.id);
    IdleEntry(rest, job.id, job);
    assert jobs[job.id := job] == rest[job.id := job];
    forall w | w in workers ensures InStep(workers, jobs[job.id := job], w) {
      assert InStep(workers, jobs, w);
      RebuiltIgnores(w, workers[w].resources, jobs, job.id);
    }
  }

  // ----- a report that comes late -----

  ghost function MarkedRunning(jobs: map<JobId, Job>, id: JobId): map<JobId, Job>
    requires id in jobs
  {
    jobs[id := jobs[id].(status := Running)]
  }

  /** One known worker that an ended job still lists is enough to put its record
      out of step. */
  lemma LateOutOfStep(workers: map<WorkerId, Worker>, jobs: map<JobId, Job>, id: JobId, w: WorkerId)
    requires Coherent(workers, jobs) && id in jobs && jobs[id].status != Running
    requires w in workers && w in jobs[id].assignedWorkers
    ensures !Coherent(workers, MarkedRunning(jobs, id))
  {
    var jobs' := MarkedRunning(jobs, id);
    assert InStep(workers, jobs, w);
    assert id !in Hosted(jobs, w) && id in Hosted(jobs', w);
    assert !InStep(workers, jobs', w);
  }

  /** None of the workers that the job lists is known. */
  ghost predicate NoneKnown(workers: map<WorkerId, Worker>, job: Job) {
    forall w :: w in job.assignedWorkers ==> w !in workers
  }

  lemma LateStart(workers: map<WorkerId, Worker>, jobs: map<JobId, Job>, id: JobId)
    requires Coherent(workers, jobs) && id in jobs
    ensures var jobs' := MarkedRunning(jobs, id);
            Coherent(workers, jobs') <==> jobs[id].status == Running || (NoneKnown(workers, jobs[id]) && SoundTable(jobs'))
    ensures (forall w :: w in jobs[id].assignedWorkers ==> w in workers) ==>
              (Coherent(workers, MarkedRunning(jobs, id)) <==>
               jobs[id].status == Running || jobs[id].assignedWorkers == [])
  {
    var job := jobs[id];
    if job.status == Running {
      assert MarkedRunning(jobs, id) == jobs;
    } else if w :| w in job.assignedWorkers && w in workers {
      LateOutOfStep(workers, jobs, id, w);
    } else {
      UnknownStaysInStep(workers, jobs, id);
      if job.assignedWorkers == [] { IdlePut(workers, jobs, job.(status := Running)); }
      else { assert job.assignedWorkers[0] in job.assignedWorkers; }
    }
  }

  lemma UnknownStaysInStep(workers: map<WorkerId, Worker>, jobs: map<JobId, Job>, id: JobId)
    requires Coherent(workers, jobs) && id in jobs && jobs[id].status != Running && NoneKnown(workers, jobs[id])
    ensures forall w :: w in workers ==> InStep(workers, MarkedRunning(jobs, id), w)
  {
    var jobs' := MarkedRunning(jobs, id);
    assert jobs' - {id} == jobs - {id};
    forall w | w in workers ensures InStep(workers, jobs', w) {
      assert InStep(workers, jobs, w);
      RebuiltIgnores(w, workers[w].resources, jobs, id);
      RebuiltIgnores(w, workers[w].resources, jobs', id);
    }
  }

  // ----- hardware that changes under a record -----

  predicate Between(a: nat, b: nat, x: nat) {
    a <= x < b || b <= x < a
  }

  lemma FreeSame(n: nat, m: nat, used: set<nat>)
    ensures Free(n, used) == Free(m, used) <==> forall x: nat :: Between(n, m, x) ==> x in used
  {
    FreeMembers(n, used);
    FreeMembers(m, used);
    if forall x: nat :: Between(n, m, x) ==> x in used {
      forall x: nat ensures x in Free(n, used) <==> x in Free(m, used) {
        assert Between(n, m, x) ==> x in used;
      }
      AscendingUnique(Free(n, used), Free(m, used));
    } else {
      var x: nat :| Between(n, m, x) && x !in used;
      assert x in Free(n, used) <==> x !in Free(m, used);
    }
  }

  /** Every core and device that only one of the two machines has is held. */
  ghost predicate NothingFreeBetween(w: WorkerId, a: Hardware, b: Hardware, jobs: map<JobId, Job>) {
    && (forall c: nat :: Between(a.cpuCores, b.cpuCores, c) ==> c in UsedCores(jobs, w))
    && (forall name :: KindHeldBetween(w, a, b, jobs, name))
  }

  ghost predicate KindHeldBetween(w: WorkerId, a: Hardware, b: Hardware, jobs: map<JobId, Job>, name: string) {
    forall g: nat :: Between(DeviceCount(a, name), DeviceCount(b, name), g) ==> g in UsedGres(jobs, w, name)
  }

  lemma KindSame(w: WorkerId, a: Hardware, b: Hardware, jobs: map<JobId, Job>, name: string)
    ensures Lookup(FreeGres(a, jobs, w), name) == Lookup(FreeGres(b, jobs, w), name) <==>
            KindHeldBetween(w, a, b, jobs, name)
  {
    FreeGresLookup(w, a, jobs, name);
    FreeGresLookup(w, b, jobs, name);
    FreeSame(DeviceCount(a, name), DeviceCount(b, name), UsedGres(jobs, w, name));
  }

  lemma HardwareAgrees(a: Allocation, w: WorkerId, was: Hardware, now: Hardware, jobs: map<JobId, Job>)
    requires Agrees(a, Rebuilt(w, was, jobs))
    ensures Agrees(a, Rebuilt(w, now, jobs)) <==> NothingFreeBetween(w, was, now, jobs)
  {
    FreeSame(was.cpuCores, now.cpuCores, UsedCores(jobs, w));
    forall name
      ensures Lookup(a.availableGres, name) == Lookup(FreeGres(now, jobs, w), name) <==>
              KindHeldBetween(w, was, now, jobs, name)
    {
      assert Lookup(a.availableGres, name) == Lookup(Rebuilt(w, was, jobs).availableGres, name);
      KindSame(w, was, now, jobs, name);
    }
  }

  lemma HardwareChange(workers: map<WorkerId, Worker>, jobs: map<JobId, Job>, w: WorkerId, hardware: Hardware)
    requires Coherent(workers, jobs) && w in workers
    ensures Coherent(workers[w := workers[w].(resources := hardware)], jobs) <==>
            NothingFreeBetween(w, workers[w].resources, hardware, jobs)
  {
    var workers' := workers[w := workers[w].(resources := hardware)];
    assert InStep(workers, jobs, w);
    HardwareAgrees(workers[w].alloc, w, workers[w].resources, hardware, jobs);
    forall v | v in workers' && v != w ensures InStep(workers', jobs, v) { assert InStep(workers, jobs, v); }
    assert InStep(workers', jobs, w) <==> NothingFreeBetween(w, workers[w].resources, hardware, jobs);
  }

  /** The job runs on the selected workers from now on and is otherwise the same. */
  ghost predicate RunsAsAsked(was: Job, now: Job, selected: seq<WorkerId>, clock: nat) {
    && now.status == Running && now.assignedWorkers == selected && now.startTime == Some(clock)
    && now.(status := was.status, assignedWorkers := was.assignedWorkers, startTime := was.startTime,
            allocatedCores := was.allocatedCores, allocatedGres := was.allocatedGres) == was
  }

  /** On this worker the job has as many cores, and as many devices of each kind,
      as it asks for, all of which were free. */
  ghost predicate GotWhatItAsked(job: Job, w: WorkerId, a: Allocation) {
    && w in job.allocatedCores && |job.allocatedCores[w]| == job.reqCores
    && (forall c :: c in job.allocatedCores[w] ==> c in a.availableCores)
    && w in job.allocatedGres
    && (forall name :: name in job.gresReq ==> |Lookup(job.allocatedGres[w], name)| == job.gresReq[name])
    && (forall name, g :: g in Lookup(job.allocatedGres[w], name) ==> g in Lookup(a.availableGres, name))
  }

  lemma HoldsIsAsked(job: Job, w: WorkerId, a: Allocation)
    requires HoldsOn(job, w, a)
    ensures GotWhatItAsked(job, w, a)
  {
  }

  lemma WorkerStarted(before: map<WorkerId, Worker>, after: map<WorkerId, Worker>, jobs: map<JobId, Job>,
                      job: Job, started: Job, w: WorkerId)
    requires w in before && w in after && InStep(before, jobs, w)
    requires job.id in jobs ==> jobs[job.id].status != Running
    requires started.id == job.id && started.reqCores == job.reqCores && started.reqMemory == job.reqMemory
    requires started.gresReq == job.gresReq
    requires w in started.assignedWorkers ==> Fits(before[w].alloc, job) && HoldsOn(started, w, before[w].alloc)
    requires after[w] == if w in started.assignedWorkers then Served(before[w], job) else before[w]
    ensures InStep(after, jobs[started.id := started], w)
  {
    if w in started.assignedWorkers {
      ServedInStep(before[w].alloc, w, before[w].resources, jobs, job, started);
    } else {
      StartedElsewhere(w, before[w].resources, jobs, started);
    }
  }

  /** The job is gone from the records of the workers already visited. */
  ghost predicate ReleasedOn(workers: map<WorkerId, Worker>, jobs: map<JobId, Job>, id: JobId, seen: seq<WorkerId>) {
    forall w :: w in workers ==> InStep(workers, if w in seen then jobs - {id} else jobs, w)
  }

  lemma SameRecord(before: map<WorkerId, Worker>, after: map<WorkerId, Worker>, jobs: map<JobId, Job>, v: WorkerId)
    requires v in before && v in after && after[v] == before[v] && InStep(before, jobs, v)
    ensures InStep(after, jobs, v)
  {
  }

  lemma ReleasedNext(before: map<WorkerId, Worker>, after: map<WorkerId, Worker>, jobs: map<JobId, Job>, id: JobId,
                     seen: seq<WorkerId>, w: WorkerId)
    requires ReleasedOn(before, jobs, id, seen) && after.Keys == before.Keys
    requires forall v :: v in after && v != w ==> after[v] == before[v]
    requires w in after ==> InStep(after, jobs - {id}, w)
    ensures ReleasedOn(after, jobs, id, seen + [w])
  {
    var next := seen + [w];
    forall v | v in after ensures InStep(after, if v in next then jobs - {id} else jobs, v) {
      assert v in next <==> v in seen || v == w;
      if v != w { SameRecord(before, after, if v in seen then jobs - {id} else jobs, v); }
    }
  }

  lemma ReleasedEverywhere(workers: map<WorkerId, Worker>, jobs: map<JobId, Job>, id: JobId)
    requires id in jobs && ReleasedOn(workers, jobs, id, jobs[id].assignedWorkers)
    ensures forall w :: w in workers ==> InStep(workers, jobs - {id}, w)
  {
    forall w | w in workers ensures InStep(workers, jobs - {id}, w) {
      if w !in jobs[id].assignedWorkers { RebuiltIgnores(w, workers[w].resources, jobs, id); }
    }
  }

  /** A worker after it has given the job what it asked for. */
  ghost function Served(worker: Worker, job: Job): Worker {
    if Fits(worker.alloc, job) then worker.(alloc := Given(worker.alloc, job)) else worker
  }

  /** Both maps record what worker `w` gave to the job. */
  ghost predicate GaveTo(a: Allocation, job: Job, w: WorkerId, cores: map<WorkerId, seq<nat>>, gres: map<WorkerId, Gres>) {
    && w in cores && w in gres
    && job.reqCores <= |a.availableCores| && Enough(a.availableGres, job.gresReq)
    && cores[w] == a.availableCores[..job.reqCores]
    && gres[w] == TakenGres(a.availableGres, job.gresReq)
  }

  lemma ServedInStep(a: Allocation, w: WorkerId, res: Hardware, jobs: map<JobId, Job>, job: Job, started: Job)
    requires Agrees(a, Rebuilt(w, res, jobs)) && HoldsOn(started, w, a)
    requires started.id in jobs ==> !RunsOn(jobs[started.id], w)
    requires started.id == job.id && started.reqCores == job.reqCores && started.reqMemory == job.reqMemory
    requires started.gresReq == job.gresReq
    ensures Agrees(Given(a, job), Rebuilt(w, res, jobs[started.id := started]))
  {
    GivenAgrees(a, w, res, jobs, started);
  }

  // ----- what coherence means for the records -----

  /** On every worker a core of the machine is in the free list exactly when no
      job on record holds it, and no two jobs on record hold the same core. */
  lemma NeverDoubleBooked(workers: map<WorkerId, Worker>, jobs: map<JobId, Job>, w: WorkerId, c: nat)
    requires Coherent(workers, jobs) && w in workers && c < workers[w].resources.cpuCores
    ensures var a := workers[w].alloc;
            && (c in a.availableCores <==> forall id :: id in a.jobCores ==> c !in a.jobCores[id])
            && (forall i, j | i in a.jobCores && j in a.jobCores :: c in a.jobCores[i] && c in a.jobCores[j] ==> i == j)
  {
    assert InStep(workers, jobs, w);
    CoresPartition(w, workers[w].resources, jobs, c);
    assert workers[w].alloc.jobCores == JobCores(jobs, w);
    if id :| id in Hosted(jobs, w) && c in CoresOn(jobs[id], w) {
      assert id in workers[w].alloc.jobCores;
    }
  }

  /** Only the jobs that run on a worker matter to its record. */
  lemma RebuiltFrom(w: WorkerId, res: Hardware, jobs: map<JobId, Job>, jobs': map<JobId, Job>)
    requires Hosted(jobs, w) == Hosted(jobs', w)
    requires forall id :: id in Hosted(jobs, w) ==> jobs[id] == jobs'[id]
    ensures Rebuilt(w, res, jobs) == Rebuilt(w, res, jobs')
  {
    MemorySame(jobs, jobs', Hosted(jobs, w));
    assert UsedCores(jobs, w) == UsedCores(jobs', w);
    FreeGresFrom(w, res, jobs, jobs');
    assert JobCores(jobs, w) == JobCores(jobs', w) && JobGres(jobs, w) == JobGres(jobs', w);
  }

  lemma FreeGresFrom(w: WorkerId, res: Hardware, jobs: map<JobId, Job>, jobs': map<JobId, Job>)
    requires Hosted(jobs, w) == Hosted(jobs', w)
    requires forall id :: id in Hosted(jobs, w) ==> jobs[id] == jobs'[id]
    ensures FreeGres(res, jobs, w) == FreeGres(res, jobs', w)
  {
    forall name ensures UsedGres(jobs, w, name) == UsedGres(jobs', w, name) {}
  }

  /** Whatever happened between two coherent states, a worker with the same
      hardware that runs the same jobs has the same record, its free lists in
      the same order: starts, finishes and preemptions leave no trace. */
  lemma NoTrace(workers: map<WorkerId, Worker>, jobs: map<JobId, Job>,
                workers': map<WorkerId, Worker>, jobs': map<JobId, Job>, w: WorkerId)
    requires Coherent(workers, jobs) && Coherent(workers', jobs') && w in workers && w in workers'
    requires workers[w].resources == workers'[w].resources
    requires Hosted(jobs, w) == Hosted(jobs', w)
    requires forall id :: id in Hosted(jobs, w) ==> jobs[id] == jobs'[id]
    ensures Agrees(workers[w].alloc, workers'[w].alloc)
  {
    assert InStep(workers, jobs, w) && InStep(workers', jobs', w);
    RebuiltFrom(w, workers[w].resources, jobs, jobs');
  }

  lemma NoJobs()
    ensures SoundTable(map[])
  {
    forall w ensures Memory(map[], Hosted(map[], w)) < TWO_64 { assert Hosted(map[], w) == {}; }
  }
}
