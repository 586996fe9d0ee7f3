/** Taking back the resources that a job held on a worker, and why this keeps the
    worker's record equal to the one rebuilt from the job table. */
module Release {
  import opened Common
  import opened Allocations

  // ----- sorting -----

  function InsertSorted(s: seq<nat>, x: nat): seq<nat> {
    if s == [] || s[|s| - 1] < x then s + [x]
    else InsertSorted(s[..|s| - 1], x) + [s[|s| - 1]]
  }

  /** Rust's `sort_unstable`. */
  function Sort(s: seq<nat>): seq<nat> {
    if s == [] then [] else InsertSorted(Sort(s[..|s| - 1]), s[|s| - 1])
  }

  lemma AscendingSnoc(s: seq<nat>, x: nat)
    requires Ascending(s) && forall y: nat :: y in s ==> y < x
    ensures Ascending(s + [x])
  {
    assert forall i :: 0 <= i < |s| ==> s[i] in s;
  }

  lemma AscendingInit(s: seq<nat>, y: nat)
    requires Ascending(s) && s != []
    ensures Ascending(s[..|s| - 1])
    ensures y in s[..|s| - 1] ==> y < s[|s| - 1]
    ensures y in s <==> y in s[..|s| - 1] || y == s[|s| - 1]
  {
    assert s == s[..|s| - 1] + [s[|s| - 1]];
  }

  lemma {:induction false} InsertSortedMembers(s: seq<nat>, x: nat)
    requires Ascending(s) && x !in s
    ensures Ascending(InsertSorted(s, x))
    ensures forall y: nat :: y in InsertSorted(s, x) <==> y in s || y == x
  {
    if s == [] || s[|s| - 1] < x {
      AscendingSnoc'(s, x);
    } else {
      var init, last := s[..|s| - 1], s[|s| - 1];
      forall y: nat
        ensures y in init ==> y < last
        ensures y in s <==> y in init || y == last
      {
        AscendingInit(s, y);
      }
      AscendingInit(s, x);
      InsertSortedMembers(init, x);
      AscendingSnoc(InsertSorted(init, x), last);
    }
  }

  lemma AscendingSnoc'(s: seq<nat>, x: nat)
    requires Ascending(s) && (s == [] || s[|s| - 1] < x)
    ensures Ascending(s + [x])
  {
  }

  lemma {:induction false} SortMembers(s: seq<nat>)
    requires Distinct(s)
    ensures Ascending(Sort(s)) && forall x: nat :: x in Sort(s) <==> x in s
  {
    if s != [] {
      var n := |s| - 1;
      SortMembers(s[..n]);
      assert s == s[..n] + [s[n]];
      InsertSortedMembers(Sort(s[..n]), s[n]);
    }
  }

  /** Puts released ids below `count` back into a free list and sorts it. */
  method ReleaseIds(available: seq<nat>, ids: seq<nat>, count: nat) returns (r: seq<nat>)
    requires Ascending(available)
    ensures Ascending(r)
    ensures forall x: nat :: x in r <==> x in available || (x in ids && x < count)
  {
    r := available;
    for i := 0 to |ids|
      invariant Distinct(r)
      invariant forall x: nat :: x in r <==> x in available || (x in ids[..i] && x < count)
    {
      assert ids[..i + 1] == ids[..i] + [ids[i]];
      if ids[i] < count && ids[i] !in r {
        r := r + [ids[i]];
      }
    }
    assert ids[..|ids|] == ids;
    SortMembers(r);
    r := Sort(r);
  }

  ghost predicate AscendingGres(g: Gres) {
    forall name :: Ascending(Lookup(g, name))
  }

  /** What one released device kind looks like afterwards. */
  ghost predicate ReleasedKind(before: seq<nat>, ids: seq<nat>, count: nat, after: seq<nat>) {
    Ascending(after) && forall x: nat :: x in after <==> x in before || (x in ids && x < count)
  }

  /** The state of one kind while `todo` is still to be visited. */
  ghost predicate KindState(available: Gres, gres: Gres, res: Hardware, todo: set<string>, r: Gres, name: string) {
    if name in todo || name !in gres then Lookup(r, name) == Lookup(available, name)
    else ReleasedKind(Lookup(available, name), gres[name], DeviceCount(res, name), Lookup(r, name))
  }

  /** Puts a job's devices back, kind by kind in an arbitrary order; a kind the
      worker no longer has gets an empty list. */
  method ReleaseGres(available: Gres, gres: Gres, res: Hardware) returns (r: Gres)
    requires AscendingGres(available)
    ensures forall name :: ReleasedKind(Lookup(available, name), Lookup(gres, name), DeviceCount(res, name), Lookup(r, name))
  {
    r := available;
    var todo := gres.Keys;
    while todo != {}
      invariant todo <= gres.Keys
      invariant forall name :: KindState(available, gres, res, todo, r, name)
      decreases |todo|
    {
      var name :| name in todo;
      assert KindState(available, gres, res, todo, r, name);
      var list := ReleaseIds(Lookup(r, name), gres[name], DeviceCount(res, name));
      var r' := r[name := list];
      var todo' := todo - {name};
      forall other ensures KindState(available, gres, res, todo', r', other) {
        assert KindState(available, gres, res, todo, r, other);
      }
      r, todo := r', todo';
    }
    forall name ensures ReleasedKind(Lookup(available, name), Lookup(gres, name), DeviceCount(res, name), Lookup(r, name)) {
      assert KindState(available, gres, res, todo, r, name);
      assert Ascending(Lookup(available, name));
    }
  }

  // ----- agreement with the job table -----

  /** Equal allocations, where a device kind with an empty free list may also be
      missing from the map. */
  ghost predicate Agrees(a: Allocation, b: Allocation) {
    && a.(availableGres := map[]) == b.(availableGres := map[])
    && forall name :: Lookup(a.availableGres, name) == Lookup(b.availableGres, name)
  }

  lemma OwnCoresUnused(w: WorkerId, jobs: map<JobId, Job>, id: JobId, c: nat)
    requires Disjoint(jobs) && id in jobs && RunsOn(jobs[id], w) && c in CoresOn(jobs[id], w)
    ensures c !in UsedCores(jobs - {id}, w)
  {
    var rest := jobs - {id};
    forall j | j in Hosted(rest, w) ensures c !in CoresOn(rest[j], w) {
      assert j in Hosted(jobs, w) && id in Hosted(jobs, w);
      assert Apart(jobs[id], jobs[j], w);
    }
  }

  lemma OwnGresUnused(w: WorkerId, jobs: map<JobId, Job>, id: JobId, name: string, g: nat)
    requires Disjoint(jobs) && id in jobs && RunsOn(jobs[id], w) && g in Lookup(GresOn(jobs[id], w), name)
    ensures g !in UsedGres(jobs - {id}, w, name)
  {
    var rest := jobs - {id};
    forall j | j in Hosted(rest, w) ensures g !in Lookup(GresOn(rest[j], w), name) {
      assert j in Hosted(jobs, w) && id in Hosted(jobs, w);
      assert Apart(jobs[id], jobs[j], w);
    }
  }

  /** Returned cores turn the free list into the one without the job. */
  lemma CoresReturn(w: WorkerId, n: nat, jobs: map<JobId, Job>, id: JobId, after: seq<nat>)
    requires Disjoint(jobs) && id in jobs && RunsOn(jobs[id], w)
    requires ReleasedKind(Free(n, UsedCores(jobs, w)), CoresOn(jobs[id], w), n, after)
    ensures after == Free(n, UsedCores(jobs - {id}, w))
  {
    UsedCoresAdd(w, jobs, id);
    FreeMembers(n, UsedCores(jobs, w));
    forall x: nat ensures x in after <==> x < n && x !in UsedCores(jobs - {id}, w) {
      if x in CoresOn(jobs[id], w) { OwnCoresUnused(w, jobs, id, x); }
    }
    IsFree(after, n, UsedCores(jobs - {id}, w));
  }

  lemma GresReturn(w: WorkerId, n: nat, jobs: map<JobId, Job>, id: JobId, name: string, after: seq<nat>)
    requires Disjoint(jobs) && id in jobs && RunsOn(jobs[id], w)
    requires ReleasedKind(Free(n, UsedGres(jobs, w, name)), Lookup(GresOn(jobs[id], w), name), n, after)
    ensures after == Free(n, UsedGres(jobs - {id}, w, name))
  {
    UsedGresAdd(w, jobs, id, name);
    FreeMembers(n, UsedGres(jobs, w, name));
    forall x: nat ensures x in after <==> x < n && x !in UsedGres(jobs - {id}, w, name) {
      if x in Lookup(GresOn(jobs[id], w), name) { OwnGresUnused(w, jobs, id, name, x); }
    }
    IsFree(after, n, UsedGres(jobs - {id}, w, name));
  }

  /** Every free list of a rebuilt worker, by kind; a kind it does not have has
      no devices. */
  lemma FreeGresLookup(w: WorkerId, res: Hardware, jobs: map<JobId, Job>, name: string)
    ensures Lookup(FreeGres(res, jobs, w), name) == Free(DeviceCount(res, name), UsedGres(jobs, w, name))
  {
  }

  /** The lists recorded for the job are those in the job table. */
  lemma RecordedLists(a: Allocation, w: WorkerId, res: Hardware, jobs: map<JobId, Job>, id: JobId)
    requires Agrees(a, Rebuilt(w, res, jobs)) && id in jobs
    ensures id in a.assignedJobs <==> RunsOn(jobs[id], w)
    ensures id in a.assignedJobs ==> (id in a.jobCores <==> w in jobs[id].allocatedCores)
    ensures id in a.jobCores ==> a.jobCores[id] == CoresOn(jobs[id], w)
    ensures id in a.assignedJobs ==> (id in a.jobGres <==> w in jobs[id].allocatedGres)
    ensures id in a.jobGres ==> a.jobGres[id] == GresOn(jobs[id], w)
  {
    assert a.assignedJobs == Hosted(jobs, w) && a.jobCores == JobCores(jobs, w) && a.jobGres == JobGres(jobs, w);
  }

  /** Dropping a job from every field of the record drops it from the table's view. */
  lemma ReleasedAgrees(a: Allocation, a': Allocation, w: WorkerId, res: Hardware, jobs: map<JobId, Job>, id: JobId)
    requires Agrees(a, Rebuilt(w, res, jobs)) && id in jobs && RunsOn(jobs[id], w)
    requires Memory(jobs, Hosted(jobs, w)) < TWO_64
    requires a'.assignedJobs == a.assignedJobs - {id}
    requires a.allocatedMemory >= jobs[id].reqMemory ==> a'.allocatedMemory == a.allocatedMemory - jobs[id].reqMemory
    requires a'.jobCores == a.jobCores - {id} && a'.jobGres == a.jobGres - {id}
    requires a'.availableCores == Free(res.cpuCores, UsedCores(jobs - {id}, w))
    requires forall name :: Lookup(a'.availableGres, name) == Lookup(FreeGres(res, jobs - {id}, w), name)
    ensures Agrees(a', Rebuilt(w, res, jobs - {id}))
  {
    MemoryWithout(w, res, jobs, id);
    RecordsWithout(w, jobs, id);
  }

  lemma MemoryWithout(w: WorkerId, res: Hardware, jobs: map<JobId, Job>, id: JobId)
    requires id in jobs && RunsOn(jobs[id], w) && Memory(jobs, Hosted(jobs, w)) < TWO_64
    ensures Rebuilt(w, res, jobs).allocatedMemory ==
            Rebuilt(w, res, jobs - {id}).allocatedMemory + jobs[id].reqMemory
  {
    RebuiltAdds(w, res, jobs, id);
  }

  lemma RecordsWithout(w: WorkerId, jobs: map<JobId, Job>, id: JobId)
    ensures Hosted(jobs, w) - {id} == Hosted(jobs - {id}, w)
    ensures JobCores(jobs, w) - {id} == JobCores(jobs - {id}, w)
    ensures JobGres(jobs, w) - {id} == JobGres(jobs - {id}, w)
  {
  }

  /** One worker's part of `release_job_resources_internal`. */
  method ReleaseOnWorker(a: Allocation, w: WorkerId, res: Hardware, id: JobId, job: Job, ghost jobs: map<JobId, Job>)
    returns (a': Allocation)
    requires Disjoint(jobs) && id in jobs && jobs[id] == job
    requires Memory(jobs, Hosted(jobs, w)) < TWO_64
    requires Agrees(a, Rebuilt(w, res, jobs)) && id in a.assignedJobs
    ensures Agrees(a', Rebuilt(w, res, jobs - {id}))
  {
    RecordedLists(a, w, res, jobs, id);
    var cores := if id in a.jobCores then a.jobCores[id] else CoresOn(job, w);
    var gres := if id in a.jobGres then a.jobGres[id] else GresOn(job, w);
    var freeCores, freeGres := ReleaseLists(a, w, res, cores, gres, id, jobs);
    var left := a.assignedJobs - {id};
    if left == {} {
      ResetLists(a, w, res, jobs, id);
      freeCores, freeGres := Range(res.cpuCores), AllGres(res);
    }
    var memory := if a.allocatedMemory >= job.reqMemory then a.allocatedMemory - job.reqMemory else 0;
    a' := Allocation(left, memory, freeCores, a.jobCores - {id}, freeGres, a.jobGres - {id});
    ReleasedAgrees(a, a', w, res, jobs, id);
  }

  /** When the last job leaves, the whole machine is free. */
  lemma ResetLists(a: Allocation, w: WorkerId, res: Hardware, jobs: map<JobId, Job>, id: JobId)
    requires Agrees(a, Rebuilt(w, res, jobs)) && a.assignedJobs - {id} == {}
    ensures Range(res.cpuCores) == Free(res.cpuCores, UsedCores(jobs - {id}, w))
    ensures AllGres(res) == FreeGres(res, jobs - {id}, w)
  {
    assert Hosted(jobs - {id}, w) <= Hosted(jobs, w) - {id};
    NothingHosted(w, res, jobs - {id});
  }

  method ReleaseLists(a: Allocation, w: WorkerId, res: Hardware, cores: seq<nat>, gres: Gres,
                      ghost id: JobId, ghost jobs: map<JobId, Job>)
    returns (freeCores: seq<nat>, freeGres: Gres)
    requires Disjoint(jobs) && id in jobs && RunsOn(jobs[id], w)
    requires Agrees(a, Rebuilt(w, res, jobs))
    requires cores == CoresOn(jobs[id], w) && gres == GresOn(jobs[id], w)
    ensures freeCores == Free(res.cpuCores, UsedCores(jobs - {id}, w))
    ensures forall name :: Lookup(freeGres, name) == Lookup(FreeGres(res, jobs - {id}, w), name)
  {
    FreeMembers(res.cpuCores, UsedCores(jobs, w));
    freeCores := ReleaseIds(a.availableCores, cores, res.cpuCores);
    CoresReturn(w, res.cpuCores, jobs, id, freeCores);
    forall name ensures Ascending(Lookup(a.availableGres, name)) {
      FreeGresLookup(w, res, jobs, name);
      FreeMembers(DeviceCount(res, name), UsedGres(jobs, w, name));
    }
    freeGres := ReleaseGres(a.availableGres, gres, res);
    forall name ensures Lookup(freeGres, name) == Lookup(FreeGres(res, jobs - {id}, w), name) {
      FreeGresLookup(w, res, jobs, name);
      FreeGresLookup(w, res, jobs - {id}, name);
      assert Lookup(a.availableGres, name) == Lookup(Rebuilt(w, res, jobs).availableGres, name);
      GresReturn(w, DeviceCount(res, name), jobs, id, name, Lookup(freeGres, name));
    }
  }
}
