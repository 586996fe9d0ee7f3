/** Handing out a worker's free cores and devices to a job that starts. */
module HandOut {
  import opened Common
  import opened Allocations
  import opened Release

  /** The first requested devices of every kind the worker has. */
  ghost function TakenGres(available: Gres, req: map<string, nat>): Gres
    requires Enough(available, req)
  {
    map name | name in req && name in available :: available[name][..req[name]]
  }

  ghost function LeftGres(available: Gres, req: map<string, nat>): Gres
    requires Enough(available, req)
  {
    map name | name in available :: if name in req then available[name][req[name]..] else available[name]
  }

  /** The scheduler's check that the worker has enough of every kind. */
  predicate Enough(available: Gres, req: map<string, nat>) {
    forall name :: name in req ==> req[name] <= |Lookup(available, name)|
  }

  /** The state of one kind while `todo` is still to be visited. */
  ghost predicate DrainState(available: Gres, req: map<string, nat>, todo: set<string>, taken: Gres, left: Gres, name: string)
    requires Enough(available, req)
  {
    && (name in taken <==> name in req && name !in todo && name in available)
    && (name in taken ==> taken[name] == available[name][..req[name]])
    && (name in left <==> name in available)
    && (name in left ==> left[name] == if name in taken then available[name][req[name]..] else available[name])
  }

  method DrainGres(available: Gres, req: map<string, nat>) returns (taken: Gres, left: Gres)
    requires Enough(available, req)
    ensures taken == TakenGres(available, req) && left == LeftGres(available, req)
  {
    taken, left := map[], available;
    var todo := req.Keys;
    while todo != {}
      invariant todo <= req.Keys
      invariant forall name :: DrainState(available, req, todo, taken, left, name)
      decreases |todo|
    {
      var name :| name in todo;
      assert DrainState(available, req, todo, taken, left, name);
      var taken', left' := taken, left;
      if name in left {
        taken' := taken[name := left[name][..req[name]]];
        left' := left[name := left[name][req[name]..]];
      }
      var todo' := todo - {name};
      forall other ensures DrainState(available, req, todo', taken', left', other) {
        assert DrainState(available, req, todo, taken, left, other);
      }
      taken, left, todo := taken', left', todo';
    }
    forall name
      ensures name in taken <==> name in TakenGres(available, req)
      ensures name in taken ==> taken[name] == TakenGres(available, req)[name]
      ensures name in left <==> name in LeftGres(available, req)
      ensures name in left ==> left[name] == LeftGres(available, req)[name]
    {
      assert DrainState(available, req, todo, taken, left, name);
    }
  }

  /** A worker's record after the job has been given its resources. */
  ghost function Given(a: Allocation, job: Job): Allocation
    requires job.reqCores <= |a.availableCores| && Enough(a.availableGres, job.gresReq)
  {
    Allocation(
      a.assignedJobs + {job.id}, (a.allocatedMemory + job.reqMemory) % TWO_64, a.availableCores[job.reqCores..],
      a.jobCores[job.id := a.availableCores[..job.reqCores]],
      LeftGres(a.availableGres, job.gresReq), a.jobGres[job.id := TakenGres(a.availableGres, job.gresReq)])
  }

  method GiveToJob(a: Allocation, job: Job) returns (a': Allocation, cores: seq<nat>, gres: Gres)
    requires job.reqCores <= |a.availableCores| && Enough(a.availableGres, job.gresReq)
    ensures a' == Given(a, job)
    ensures cores == a.availableCores[..job.reqCores] && gres == TakenGres(a.availableGres, job.gresReq)
  {
    cores := a.availableCores[..job.reqCores];
    var left;
    gres, left := DrainGres(a.availableGres, job.gresReq);
    a' := Allocation(
      a.assignedJobs + {job.id}, (a.allocatedMemory + job.reqMemory) % TWO_64, a.availableCores[job.reqCores..],
      a.jobCores[job.id := cores], left, a.jobGres[job.id := gres]);
  }

  /** The started job holds on worker `w` what the record gave it. */
  ghost predicate HoldsOn(job: Job, w: WorkerId, a: Allocation) {
    && RunsOn(job, w) && w in job.allocatedCores && w in job.allocatedGres
    && job.reqCores <= |a.availableCores| && Enough(a.availableGres, job.gresReq)
    && job.allocatedCores[w] == a.availableCores[..job.reqCores]
    && job.allocatedGres[w] == TakenGres(a.availableGres, job.gresReq)
  }

  lemma LeftLookup(available: Gres, req: map<string, nat>, n: nat, used: set<nat>, name: string)
    requires Enough(available, req) && Lookup(available, name) == Free(n, used)
    ensures Lookup(LeftGres(available, req), name) == Without(Free(n, used), Lookup(TakenGres(available, req), name))
    ensures forall g: nat :: g in Lookup(TakenGres(available, req), name) ==> g !in used
  {
    var taken := Lookup(TakenGres(available, req), name);
    if name in req && name in available {
      DrainFree(n, used, req[name]);
      WithoutFree(n, used, taken);
      FreeMembers(n, used);
      forall g: nat | g in taken ensures g !in used { assert g in Free(n, used); }
    } else {
      WithoutNothing(Free(n, used));
    }
  }

  /** If the lists match, the record agrees with the extended allocation. */
  lemma GivenIsExtended(a: Allocation, b: Allocation, w: WorkerId, job: Job)
    requires Agrees(a, b) && HoldsOn(job, w, a)
    requires a.availableCores[job.reqCores..] == Without(b.availableCores, CoresOn(job, w))
    requires forall name :: Lookup(LeftGres(a.availableGres, job.gresReq), name) ==
                            Lookup(WithoutGres(b.availableGres, GresOn(job, w)), name)
    ensures Agrees(Given(a, job), Extended(b, w, job))
  {
  }

  /** Handing out keeps the record in agreement with the job table. */
  lemma GivenAgrees(a: Allocation, w: WorkerId, res: Hardware, jobs: map<JobId, Job>, job: Job)
    requires Agrees(a, Rebuilt(w, res, jobs)) && HoldsOn(job, w, a)
    requires job.id in jobs ==> !RunsOn(jobs[job.id], w)
    ensures Agrees(Given(a, job), Rebuilt(w, res, jobs[job.id := job]))
  {
    var rest := jobs - {job.id};
    RebuiltIgnores(w, res, jobs, job.id);
    CoresLeft(a, w, res, rest, job);
    forall name ensures Lookup(LeftGres(a.availableGres, job.gresReq), name) ==
                        Lookup(WithoutGres(FreeGres(res, rest, w), GresOn(job, w)), name) {
      KindLeft(a, w, res, rest, job, name);
    }
    GivenIsExtended(a, Rebuilt(w, res, rest), w, job);
    StartedRebuilt(w, res, jobs, job);
  }

  lemma StartedRebuilt(w: WorkerId, res: Hardware, jobs: map<JobId, Job>, job: Job)
    requires RunsOn(job, w)
    ensures Rebuilt(w, res, jobs[job.id := job]) == Extended(Rebuilt(w, res, jobs - {job.id}), w, job)
  {
    var jobs' := jobs[job.id := job];
    assert jobs' - {job.id} == jobs - {job.id};
    RebuiltExtended(w, res, jobs', job.id);
  }

  lemma CoresLeft(a: Allocation, w: WorkerId, res: Hardware, rest: map<JobId, Job>, job: Job)
    requires a.availableCores == Free(res.cpuCores, UsedCores(rest, w)) && HoldsOn(job, w, a)
    ensures a.availableCores[job.reqCores..] == Without(a.availableCores, CoresOn(job, w))
    ensures forall c: nat :: c in CoresOn(job, w) ==> c !in UsedCores(rest, w)
  {
    DrainFree(res.cpuCores, UsedCores(rest, w), job.reqCores);
    WithoutFree(res.cpuCores, UsedCores(rest, w), CoresOn(job, w));
    FreeMembers(res.cpuCores, UsedCores(rest, w));
    forall c: nat | c in CoresOn(job, w) ensures c !in UsedCores(rest, w) { assert c in a.availableCores; }
  }

  lemma KindLeft(a: Allocation, w: WorkerId, res: Hardware, rest: map<JobId, Job>, job: Job, name: string)
    requires HoldsOn(job, w, a) && Lookup(a.availableGres, name) == Lookup(FreeGres(res, rest, w), name)
    ensures Lookup(LeftGres(a.availableGres, job.gresReq), name) ==
            Lookup(WithoutGres(FreeGres(res, rest, w), GresOn(job, w)), name)
    ensures forall g: nat :: g in Lookup(GresOn(job, w), name) ==> g !in UsedGres(rest, w, name)
  {
    FreeGresLookup(w, res, rest, name);
    LeftLookup(a.availableGres, job.gresReq, DeviceCount(res, name), UsedGres(rest, w, name), name);
    if name !in res.gres {
      assert Free(0, UsedGres(rest, w, name)) == [];
    }
  }

  /** What a started job holds on a worker is apart from what others hold. */
  lemma GivenApart(a: Allocation, w: WorkerId, res: Hardware, jobs: map<JobId, Job>, job: Job, other: JobId)
    requires Agrees(a, Rebuilt(w, res, jobs)) && HoldsOn(job, w, a)
    requires other in Hosted(jobs, w) && other != job.id && (job.id in jobs ==> !RunsOn(jobs[job.id], w))
    ensures Apart(job, jobs[other], w) && Apart(jobs[other], job, w)
  {
    var rest := jobs - {job.id};
    RebuiltIgnores(w, res, jobs, job.id);
    CoresLeft(a, w, res, rest, job);
    assert other in Hosted(rest, w) && rest[other] == jobs[other];
    forall c: nat | c in CoresOn(job, w) ensures c !in CoresOn(jobs[other], w) {
      assert c !in UsedCores(rest, w);
    }
    forall name, g: nat | g in Lookup(GresOn(job, w), name) ensures g !in Lookup(GresOn(jobs[other], w), name) {
      KindLeft(a, w, res, rest, job, name);
      assert g !in UsedGres(rest, w, name);
    }
  }
}
