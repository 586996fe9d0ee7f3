/** The resources of one worker that running jobs hold, computed from the job
    table. */
module Allocations {
  import opened Common
  import opened JobStatusText

  type Gres = map<string, seq<nat>>

  datatype Job = Job(
    id: JobId, status: JobStatus, qos: Qos, reqCores: nat, reqMemory: nat, gresReq: map<string, nat>,
    assignedWorkers: seq<WorkerId>, allocatedCores: map<WorkerId, seq<nat>>,
    allocatedGres: map<WorkerId, Gres>, startTime: Option<nat>, endTime: Option<nat>)

  /** What of a worker's resources the allocations depend on. */
  datatype Hardware = Hardware(cpuCores: nat, totalMemory: u64, gres: map<string, nat>)

  datatype Allocation = Allocation(
    assignedJobs: set<JobId>, allocatedMemory: nat, availableCores: seq<nat>,
    jobCores: map<JobId, seq<nat>>, availableGres: Gres, jobGres: map<JobId, Gres>)

  predicate RunsOn(job: Job, w: WorkerId) {
    job.status == Running && w in job.assignedWorkers
  }

  ghost predicate WellKeyed(jobs: map<JobId, Job>) {
    forall id :: id in jobs ==> jobs[id].id == id
  }

  // ----- ascending lists -----

  /** The numbers below `n` that are not used, ascending. */
  function Free(n: nat, used: set<nat>): seq<nat> {
    if n == 0 then [] else Free(n - 1, used) + (if n - 1 in used then [] else [n - 1])
  }

  lemma {:induction false} FreeMembers(n: nat, used: set<nat>)
    ensures Ascending(Free(n, used))
    ensures forall x: nat :: x in Free(n, used) <==> x < n && x !in used
  {
    if n > 0 {
      FreeMembers(n - 1, used);
      var f := Free(n - 1, used);
      assert forall i :: 0 <= i < |f| ==> f[i] in f;
    }
  }

  lemma AscendingTail(s: seq<nat>)
    requires Ascending(s) && s != []
    ensures Ascending(s[1..]) && forall x: nat :: x in s[1..] <==> x in s && x != s[0]
    ensures forall x: nat :: x in s ==> s[0] <= x
  {
    assert s == [s[0]] + s[1..];
  }

  lemma NotEmpty(a: seq<nat>, b: seq<nat>)
    requires forall x: nat :: x in a ==> x in b
    ensures a != [] ==> b != [] && a[0] in b
  {
    if a != [] { assert a[0] in a; }
  }

  /** An ascending list is determined by its elements. */
  lemma {:induction false} AscendingUnique(a: seq<nat>, b: seq<nat>)
    requires Ascending(a) && Ascending(b)
    requires forall x: nat :: x in a <==> x in b
    ensures a == b
  {
    NotEmpty(a, b);
    NotEmpty(b, a);
    if a != [] {
      AscendingTail(a);
      AscendingTail(b);
      AscendingUnique(a[1..], b[1..]);
      assert a == [a[0]] + a[1..] && b == [b[0]] + b[1..];
    }
  }

  lemma IsFree(s: seq<nat>, n: nat, used: set<nat>)
    requires Ascending(s) && forall x: nat :: x in s <==> x < n && x !in used
    ensures s == Free(n, used)
  {
    FreeMembers(n, used);
    AscendingUnique(s, Free(n, used));
  }

  function Elements(s: seq<nat>): set<nat> {
    set x | x in s
  }

  /** Rust's `retain(|x| !ids.contains(x))`. */
  function Without(s: seq<nat>, ids: seq<nat>): seq<nat> {
    if s == [] then [] else
      Without(s[..|s| - 1], ids) + (if s[|s| - 1] in ids then [] else [s[|s| - 1]])
  }

  lemma {:induction false} WithoutMembers(s: seq<nat>, ids: seq<nat>)
    requires Ascending(s)
    ensures Ascending(Without(s, ids))
    ensures forall x :: x in Without(s, ids) <==> x in s && x !in ids
  {
    if s != [] {
      var n := |s| - 1;
      WithoutMembers(s[..n], ids);
      assert s == s[..n] + [s[n]];
      var f := Without(s[..n], ids);
      assert forall i :: 0 <= i < |f| ==> f[i] in f;
    }
  }

  lemma WithoutFree(n: nat, used: set<nat>, ids: seq<nat>)
    ensures Without(Free(n, used), ids) == Free(n, used + Elements(ids))
  {
    FreeMembers(n, used);
    WithoutMembers(Free(n, used), ids);
    IsFree(Without(Free(n, used), ids), n, used + Elements(ids));
  }

  /** Taking the first `k` free numbers leaves the free list without them. */
  lemma DrainFree(n: nat, used: set<nat>, k: nat)
    requires k <= |Free(n, used)|
    ensures Free(n, used)[k..] == Free(n, used + Elements(Free(n, used)[..k]))
  {
    var f := Free(n, used);
    FreeMembers(n, used);
    assert f == f[..k] + f[k..];
    forall x: nat ensures x in f[k..] <==> x < n && x !in used + Elements(f[..k]) {
      if x in f[k..] { assert x in f; }
    }
    IsFree(f[k..], n, used + Elements(f[..k]));
  }

  // ----- sums over sets of jobs -----

  ghost function Memory(jobs: map<JobId, Job>, ids: set<JobId>): nat
    requires ids <= jobs.Keys
    decreases |ids|
  {
    if ids == {} then 0 else var id :| id in ids; jobs[id].reqMemory + Memory(jobs, ids - {id})
  }

  /** The sum does not depend on the order in which jobs are taken. */
  lemma {:induction false} MemoryRemove(jobs: map<JobId, Job>, ids: set<JobId>, id: JobId)
    requires ids <= jobs.Keys && id in ids
    ensures Memory(jobs, ids) == jobs[id].reqMemory + Memory(jobs, ids - {id})
    decreases |ids|
  {
    var first :| first in ids && Memory(jobs, ids) == jobs[first].reqMemory + Memory(jobs, ids - {first});
    if first != id {
      MemoryRemove(jobs, ids - {first}, id);
      MemoryRemove(jobs, ids - {id}, first);
      assert ids - {first} - {id} == ids - {id} - {first};
    }
  }

  lemma {:induction false} MemorySame(jobs: map<JobId, Job>, jobs': map<JobId, Job>, ids: set<JobId>)
    requires ids <= jobs.Keys && ids <= jobs'.Keys
    requires forall id :: id in ids ==> jobs[id].reqMemory == jobs'[id].reqMemory
    ensures Memory(jobs, ids) == Memory(jobs', ids)
    decreases |ids|
  {
    if ids != {} {
      var id :| id in ids;
      MemoryRemove(jobs, ids, id);
      MemoryRemove(jobs', ids, id);
      MemorySame(jobs, jobs', ids - {id});
    }
  }

  // ----- what the job table says about a worker -----

  ghost function Hosted(jobs: map<JobId, Job>, w: WorkerId): set<JobId> {
    set id | id in jobs && RunsOn(jobs[id], w)
  }

  function CoresOn(job: Job, w: WorkerId): seq<nat> {
    if w in job.allocatedCores then job.allocatedCores[w] else []
  }

  function GresOn(job: Job, w: WorkerId): Gres {
    if w in job.allocatedGres then job.allocatedGres[w] else map[]
  }

  function Lookup(g: Gres, name: string): seq<nat> {
    if name in g then g[name] else []
  }

  ghost function UsedCores(jobs: map<JobId, Job>, w: WorkerId): set<nat> {
    set id, c | id in Hosted(jobs, w) && c in CoresOn(jobs[id], w) :: c
  }

  ghost function UsedGres(jobs: map<JobId, Job>, w: WorkerId, name: string): set<nat> {
    set id, g | id in Hosted(jobs, w) && g in Lookup(GresOn(jobs[id], w), name) :: g
  }

  /** The devices of one kind: the count is narrowed to 32 bits. */
  function DeviceCount(res: Hardware, name: string): nat {
    if name in res.gres then res.gres[name] % TWO_32 else 0
  }

  ghost function FreeGres(res: Hardware, jobs: map<JobId, Job>, w: WorkerId): Gres {
    map name | name in res.gres :: Free(DeviceCount(res, name), UsedGres(jobs, w, name))
  }

  ghost function JobCores(jobs: map<JobId, Job>, w: WorkerId): map<JobId, seq<nat>> {
    map id | id in Hosted(jobs, w) && w in jobs[id].allocatedCores :: jobs[id].allocatedCores[w]
  }

  ghost function JobGres(jobs: map<JobId, Job>, w: WorkerId): map<JobId, Gres> {
    map id | id in Hosted(jobs, w) && w in jobs[id].allocatedGres :: jobs[id].allocatedGres[w]
  }

  /** The allocations of a worker as one value, without any iteration order.
      Memory is a 64-bit sum. */
  ghost function Rebuilt(w: WorkerId, res: Hardware, jobs: map<JobId, Job>): Allocation {
    Allocation(
      Hosted(jobs, w), Memory(jobs, Hosted(jobs, w)) % TWO_64, Free(res.cpuCores, UsedCores(jobs, w)),
      JobCores(jobs, w), FreeGres(res, jobs, w), JobGres(jobs, w))
  }

  // ----- one job more -----

  /** A job that does not run on the worker has no influence on it. */
  lemma RebuiltIgnores(w: WorkerId, res: Hardware, jobs: map<JobId, Job>, id: JobId)
    requires id in jobs ==> !RunsOn(jobs[id], w)
    ensures Rebuilt(w, res, jobs) == Rebuilt(w, res, jobs - {id})
    ensures Memory(jobs, Hosted(jobs, w)) == Memory(jobs - {id}, Hosted(jobs - {id}, w))
  {
    var rest := jobs - {id};
    assert Hosted(jobs, w) == Hosted(rest, w);
    MemorySame(jobs, rest, Hosted(rest, w));
    assert UsedCores(jobs, w) == UsedCores(rest, w);
    assert JobCores(jobs, w) == JobCores(rest, w) && JobGres(jobs, w) == JobGres(rest, w);
    forall name ensures UsedGres(jobs, w, name) == UsedGres(rest, w, name) {}
  }

  /** What a job that runs on the worker adds to each of its allocations. */
  lemma RebuiltAdds(w: WorkerId, res: Hardware, jobs: map<JobId, Job>, id: JobId)
    requires id in jobs && RunsOn(jobs[id], w)
    ensures Hosted(jobs, w) == Hosted(jobs - {id}, w) + {id} && id !in Hosted(jobs - {id}, w)
    ensures Memory(jobs, Hosted(jobs, w)) ==
            Memory(jobs - {id}, Hosted(jobs - {id}, w)) + jobs[id].reqMemory
    ensures UsedCores(jobs, w) == UsedCores(jobs - {id}, w) + Elements(CoresOn(jobs[id], w))
    ensures forall name :: UsedGres(jobs, w, name) ==
              UsedGres(jobs - {id}, w, name) + Elements(Lookup(GresOn(jobs[id], w), name))
  {
    var rest := jobs - {id};
    AddsMemory(w, jobs, id);
    UsedCoresAdd(w, jobs, id);
    forall name ensures UsedGres(jobs, w, name) ==
                        UsedGres(rest, w, name) + Elements(Lookup(GresOn(jobs[id], w), name)) {
      UsedGresAdd(w, jobs, id, name);
    }
  }

  lemma AddsMemory(w: WorkerId, jobs: map<JobId, Job>, id: JobId)
    requires id in jobs && RunsOn(jobs[id], w)
    ensures Hosted(jobs, w) == Hosted(jobs - {id}, w) + {id} && id !in Hosted(jobs - {id}, w)
    ensures var m := Memory(jobs - {id}, Hosted(jobs - {id}, w));
            && Memory(jobs, Hosted(jobs, w)) == m + jobs[id].reqMemory
            && Memory(jobs, Hosted(jobs, w)) % TWO_64 == (m % TWO_64 + jobs[id].reqMemory) % TWO_64
  {
    var rest := jobs - {id};
    var hosted := Hosted(jobs, w);
    assert hosted - {id} == Hosted(rest, w);
    assert hosted == Hosted(rest, w) + {id};
    MemoryRemove(jobs, hosted, id);
    MemorySame(jobs, rest, Hosted(rest, w));
    WrappedSum(Memory(rest, Hosted(rest, w)), jobs[id].reqMemory);
  }

  lemma UsedCoresAdd(w: WorkerId, jobs: map<JobId, Job>, id: JobId)
    requires id in jobs && RunsOn(jobs[id], w)
    ensures UsedCores(jobs, w) == UsedCores(jobs - {id}, w) + Elements(CoresOn(jobs[id], w))
  {
    var rest, job := jobs - {id}, jobs[id];
    forall c ensures c in UsedCores(jobs, w) <==> c in UsedCores(rest, w) + Elements(CoresOn(job, w)) {
      if c in UsedCores(rest, w) {
        var i :| i in Hosted(rest, w) && c in CoresOn(rest[i], w);
        assert i in Hosted(jobs, w) && c in CoresOn(jobs[i], w);
      }
      if c in UsedCores(jobs, w) {
        var i :| i in Hosted(jobs, w) && c in CoresOn(jobs[i], w);
        if i != id { assert i in Hosted(rest, w) && c in CoresOn(rest[i], w); }
      }
    }
  }

  lemma UsedGresAdd(w: WorkerId, jobs: map<JobId, Job>, id: JobId, name: string)
    requires id in jobs && RunsOn(jobs[id], w)
    ensures UsedGres(jobs, w, name) ==
            UsedGres(jobs - {id}, w, name) + Elements(Lookup(GresOn(jobs[id], w), name))
  {
    var rest, ids := jobs - {id}, Lookup(GresOn(jobs[id], w), name);
    forall g ensures g in UsedGres(jobs, w, name) <==> g in UsedGres(rest, w, name) + Elements(ids) {
      if g in UsedGres(rest, w, name) {
        var i :| i in Hosted(rest, w) && g in Lookup(GresOn(rest[i], w), name);
        assert i in Hosted(jobs, w) && g in Lookup(GresOn(jobs[i], w), name);
      }
      if g in UsedGres(jobs, w, name) {
        var i :| i in Hosted(jobs, w) && g in Lookup(GresOn(jobs[i], w), name);
        if i != id { assert i in Hosted(rest, w) && g in Lookup(GresOn(rest[i], w), name); }
      }
    }
  }

  // ----- rebuilding by iteration -----

  lemma {:induction false} WithoutNothing(s: seq<nat>)
    ensures Without(s, []) == s
  {
    if s != [] {
      WithoutNothing(s[..|s| - 1]);
      assert s == s[..|s| - 1] + [s[|s| - 1]];
    }
  }

  /** The free lists without a job's devices. */
  ghost function WithoutGres(available: Gres, gres: Gres): Gres {
    map name | name in available :: Without(available[name], Lookup(gres, name))
  }

  /** Removes a job's devices from the free lists, visiting its device kinds in
      an arbitrary order; kinds the worker does not have are skipped. */
  method TakeGres(available: Gres, gres: Gres) returns (left: Gres)
    ensures left == WithoutGres(available, gres)
  {
    left := available;
    var todo := gres.Keys;
    while todo != {}
      invariant todo <= gres.Keys && left.Keys == available.Keys
      invariant forall name :: name in available ==>
                  left[name] == if name in gres && name !in todo then Without(available[name], gres[name])
                                else available[name]
      decreases |todo|
    {
      var name :| name in todo;
      if name in left {
        left := left[name := Without(left[name], gres[name])];
      }
      todo := todo - {name};
    }
    forall name | name in available ensures left[name] == Without(available[name], Lookup(gres, name)) {
      WithoutNothing(available[name]);
    }
  }

  ghost function Upto(jobs: map<JobId, Job>, ids: set<JobId>): map<JobId, Job> {
    map id | id in jobs && id in ids :: jobs[id]
  }

  lemma UptoNext(jobs: map<JobId, Job>, ids: set<JobId>, id: JobId)
    requires id in jobs && id !in ids
    ensures Upto(jobs, ids + {id}) == Upto(jobs, ids)[id := jobs[id]]
    ensures Upto(jobs, ids + {id}) - {id} == Upto(jobs, ids)
  {
  }

  /** The same free resources and memory. */
  ghost predicate SameFree(a: Allocation, b: Allocation) {
    a.allocatedMemory == b.allocatedMemory && a.availableCores == b.availableCores && a.availableGres == b.availableGres
  }

  /** The ids that the jobs on a worker carry, which need not be their keys. */
  ghost function NamedIds(jobs: map<JobId, Job>, w: WorkerId): set<JobId> {
    set id | id in Hosted(jobs, w) :: jobs[id].id
  }

  /** How far a rebuild has come after visiting the jobs `seen`. */
  ghost predicate RebuiltSoFar(a: Allocation, w: WorkerId, res: Hardware, jobs: map<JobId, Job>, seen: set<JobId>) {
    && SameFree(a, Rebuilt(w, res, Upto(jobs, seen)))
    && a.assignedJobs == NamedIds(Upto(jobs, seen), w)
    && (WellKeyed(jobs) ==> a == Rebuilt(w, res, Upto(jobs, seen)))
  }

  /** What visiting one more job does to the allocations so far. */
  lemma RebuiltVisit(a: Allocation, w: WorkerId, res: Hardware, jobs: map<JobId, Job>, ids: set<JobId>, id: JobId)
    requires RebuiltSoFar(a, w, res, jobs, ids) && id in jobs && id !in ids
    ensures RebuiltSoFar(if RunsOn(jobs[id], w) then Extended(a, w, jobs[id]) else a, w, res, jobs, ids + {id})
  {
    UptoNext(jobs, ids, id);
    var next := Upto(jobs, ids + {id});
    if RunsOn(jobs[id], w) {
      FreeExtended(w, res, next, id);
      NamedAdds(w, next, id);
      if WellKeyed(jobs) { RebuiltExtended(w, res, next, id); }
    } else {
      RebuiltIgnores(w, res, next, id);
      NamedIgnores(w, next, id);
    }
  }

  lemma NamedAdds(w: WorkerId, jobs: map<JobId, Job>, id: JobId)
    requires id in jobs && RunsOn(jobs[id], w)
    ensures NamedIds(jobs, w) == NamedIds(jobs - {id}, w) + {jobs[id].id}
  {
    var rest := jobs - {id};
    assert forall i :: i in Hosted(rest, w) <==> i in Hosted(jobs, w) && i != id;
    assert id in Hosted(jobs, w);
    assert forall i :: i in Hosted(rest, w) ==> rest[i].id == jobs[i].id;
  }

  lemma NamedIgnores(w: WorkerId, jobs: map<JobId, Job>, id: JobId)
    requires id in jobs ==> !RunsOn(jobs[id], w)
    ensures NamedIds(jobs, w) == NamedIds(jobs - {id}, w)
  {
    var rest := jobs - {id};
    assert Hosted(rest, w) == Hosted(jobs, w);
    assert forall i :: i in Hosted(rest, w) ==> rest[i].id == jobs[i].id;
  }

  lemma VisitNothing(w: WorkerId, res: Hardware, jobs: map<JobId, Job>)
    ensures Rebuilt(w, res, Upto(jobs, {})) == Allocation({}, 0, Range(res.cpuCores), map[], AllGres(res), map[])
    ensures Upto(jobs, jobs.Keys) == jobs && NamedIds(Upto(jobs, {}), w) == {}
  {
    assert Upto(jobs, {}) == map[];
    assert Hosted(map[], w) == {};
    NothingHosted(w, res, map[]);
  }

  /** Visits the job table in an arbitrary order. */
  method VisitJobs(w: WorkerId, res: Hardware, jobs: map<JobId, Job>) returns (a: Allocation)
    ensures SameFree(a, Rebuilt(w, res, jobs)) && a.assignedJobs == NamedIds(jobs, w)
    ensures WellKeyed(jobs) ==> a == Rebuilt(w, res, jobs)
  {
    a := Allocation({}, 0, Range(res.cpuCores), map[], AllGres(res), map[]);
    VisitNothing(w, res, jobs);
    var todo := jobs.Keys;
    ghost var seen: set<JobId> := {};
    while todo != {}
      invariant todo <= jobs.Keys && seen == jobs.Keys - todo
      invariant RebuiltSoFar(a, w, res, jobs, seen)
      decreases |todo|
    {
      var id :| id in todo;
      RebuiltVisit(a, w, res, jobs, seen, id);
      if RunsOn(jobs[id], w) {
        a := AddJob(a, w, jobs[id]);
      }
      todo, seen := todo - {id}, seen + {id};
    }
    assert seen == jobs.Keys;
  }

  /** Rebuilds a worker's allocations: the result is the same for every order in
      which the table is visited. Only the per-job lists need that jobs are filed
      under their own ids. */
  method RebuildWorkerAllocations(w: WorkerId, res: Hardware, jobs: map<JobId, Job>) returns (a: Allocation)
    ensures SameFree(a, Rebuilt(w, res, jobs)) && a.assignedJobs == NamedIds(jobs, w)
    ensures WellKeyed(jobs) ==> a == Rebuilt(w, res, jobs)
    ensures forall c: nat :: CoreIsRight(a, w, res, jobs, c)
    ensures a.availableGres.Keys == res.gres.Keys
    ensures forall name, g: nat | name in res.gres :: DeviceIsRight(a, w, res, jobs, name, g)
  {
    a := VisitJobs(w, res, jobs);
    FreePlainly(a, w, res, jobs);
  }

  lemma AddsCores(w: WorkerId, n: nat, jobs: map<JobId, Job>, id: JobId)
    requires id in jobs && RunsOn(jobs[id], w)
    ensures var rest, job := jobs - {id}, jobs[id];
            && Free(n, UsedCores(jobs, w)) == Without(Free(n, UsedCores(rest, w)), CoresOn(job, w))
            && JobCores(jobs, w) == if w in job.allocatedCores
                                    then JobCores(rest, w)[id := job.allocatedCores[w]] else JobCores(rest, w)
  {
    UsedCoresAdd(w, jobs, id);
    WithoutFree(n, UsedCores(jobs - {id}, w), CoresOn(jobs[id], w));
  }

  lemma AddsGres(w: WorkerId, res: Hardware, jobs: map<JobId, Job>, id: JobId)
    requires id in jobs && RunsOn(jobs[id], w)
    ensures var rest, job := jobs - {id}, jobs[id];
            && FreeGres(res, jobs, w) == WithoutGres(FreeGres(res, rest, w), GresOn(job, w))
            && JobGres(jobs, w) == if w in job.allocatedGres
                                   then JobGres(rest, w)[id := job.allocatedGres[w]] else JobGres(rest, w)
  {
    forall name | name in res.gres
      ensures FreeGres(res, jobs, w)[name] ==
              Without(FreeGres(res, jobs - {id}, w)[name], Lookup(GresOn(jobs[id], w), name))
    {
      AddsKind(w, DeviceCount(res, name), jobs, id, name);
    }
    assert FreeGres(res, jobs, w) == WithoutGres(FreeGres(res, jobs - {id}, w), GresOn(jobs[id], w));
    AddsJobGres(w, jobs, id);
  }

  lemma AddsKind(w: WorkerId, n: nat, jobs: map<JobId, Job>, id: JobId, name: string)
    requires id in jobs && RunsOn(jobs[id], w)
    ensures Free(n, UsedGres(jobs, w, name)) ==
            Without(Free(n, UsedGres(jobs - {id}, w, name)), Lookup(GresOn(jobs[id], w), name))
  {
    UsedGresAdd(w, jobs, id, name);
    WithoutFree(n, UsedGres(jobs - {id}, w, name), Lookup(GresOn(jobs[id], w), name));
  }

  lemma AddsJobGres(w: WorkerId, jobs: map<JobId, Job>, id: JobId)
    requires id in jobs && RunsOn(jobs[id], w)
    ensures JobGres(jobs, w) == if w in jobs[id].allocatedGres
                                then JobGres(jobs - {id}, w)[id := jobs[id].allocatedGres[w]]
                                else JobGres(jobs - {id}, w)
  {
  }

  lemma WithoutNoGres(available: Gres)
    ensures WithoutGres(available, map[]) == available
  {
    forall name | name in available ensures Without(available[name], []) == available[name] {
      WithoutNothing(available[name]);
    }
  }

  /** A worker's allocations with those of one more job. */
  ghost function Extended(a: Allocation, w: WorkerId, job: Job): Allocation {
    Allocation(
      a.assignedJobs + {job.id}, (a.allocatedMemory + job.reqMemory) % TWO_64,
      Without(a.availableCores, CoresOn(job, w)),
      if w in job.allocatedCores then a.jobCores[job.id := job.allocatedCores[w]] else a.jobCores,
      WithoutGres(a.availableGres, GresOn(job, w)),
      if w in job.allocatedGres then a.jobGres[job.id := job.allocatedGres[w]] else a.jobGres)
  }

  lemma WrappedSum(x: nat, y: nat)
    ensures (x % TWO_64 + y) % TWO_64 == (x + y) % TWO_64
  {
  }

  /** Free resources and memory do not depend on the ids that jobs carry. */
  lemma FreeExtended(w: WorkerId, res: Hardware, jobs: map<JobId, Job>, id: JobId)
    requires id in jobs && RunsOn(jobs[id], w)
    ensures SameFree(Rebuilt(w, res, jobs), Extended(Rebuilt(w, res, jobs - {id}), w, jobs[id]))
  {
    AddsMemory(w, jobs, id);
    AddsCores(w, res.cpuCores, jobs, id);
    AddsGres(w, res, jobs, id);
  }

  lemma RebuiltExtended(w: WorkerId, res: Hardware, jobs: map<JobId, Job>, id: JobId)
    requires id in jobs && jobs[id].id == id && RunsOn(jobs[id], w)
    ensures Rebuilt(w, res, jobs) == Extended(Rebuilt(w, res, jobs - {id}), w, jobs[id])
  {
    FreeExtended(w, res, jobs, id);
    AddsMemory(w, jobs, id);
    AddsCores(w, res.cpuCores, jobs, id);
    AddsGres(w, res, jobs, id);
  }

  /** The iteration for one job that runs on the worker. */
  method AddJob(a: Allocation, w: WorkerId, job: Job) returns (a': Allocation)
    ensures a' == Extended(a, w, job)
  {
    WithoutNothing(a.availableCores);
    WithoutNoGres(a.availableGres);
    a' := a.(assignedJobs := a.assignedJobs + {job.id},
             allocatedMemory := (a.allocatedMemory + job.reqMemory) % TWO_64);
    if w in job.allocatedCores {
      var cores := job.allocatedCores[w];
      a' := a'.(jobCores := a.jobCores[job.id := cores], availableCores := Without(a.availableCores, cores));
    }
    if w in job.allocatedGres {
      var gres := job.allocatedGres[w];
      var left := TakeGres(a.availableGres, gres);
      a' := a'.(jobGres := a.jobGres[job.id := gres], availableGres := left);
    }
  }

  /** Rust's `(0..n).collect()`. */
  function Range(n: nat): seq<nat> {
    seq(n, i => i)
  }

  function AllGres(res: Hardware): Gres {
    map name | name in res.gres :: Range(res.gres[name] % TWO_32)
  }

  lemma RangeIsFree(n: nat)
    ensures Range(n) == Free(n, {})
  {
    forall x: nat ensures x in Range(n) <==> x < n { if x < n { assert Range(n)[x] == x; } }
    IsFree(Range(n), n, {});
  }

  lemma NothingHosted(w: WorkerId, res: Hardware, jobs: map<JobId, Job>)
    requires Hosted(jobs, w) == {}
    ensures Rebuilt(w, res, jobs) == Allocation({}, 0, Range(res.cpuCores), map[], AllGres(res), map[])
  {
    assert UsedCores(jobs, w) == {};
    RangeIsFree(res.cpuCores);
    forall name | name in res.gres
      ensures Free(DeviceCount(res, name), UsedGres(jobs, w, name)) == Range(res.gres[name] % TWO_32)
    {
      assert UsedGres(jobs, w, name) == {};
      RangeIsFree(res.gres[name] % TWO_32);
    }
  }

  // ----- the free lists and the assigned ones partition the machine -----

  /** No core and no device of the worker is held by two running jobs. */
  ghost predicate Disjoint(jobs: map<JobId, Job>) {
    forall i, j, w :: i in Hosted(jobs, w) && j in Hosted(jobs, w) && i != j ==> Apart(jobs[i], jobs[j], w)
  }

  ghost predicate Apart(a: Job, b: Job, w: WorkerId) {
    && (forall c :: c in CoresOn(a, w) ==> c !in CoresOn(b, w))
    && (forall name, g :: g in Lookup(GresOn(a, w), name) ==> g !in Lookup(GresOn(b, w), name))
  }

  /** Every core of the machine is free or held by exactly one running job, when
      jobs are disjoint; a core is free exactly when no running job holds it. */
  lemma CoresPartition(w: WorkerId, res: Hardware, jobs: map<JobId, Job>, c: nat)
    requires Disjoint(jobs) && c < res.cpuCores
    ensures c in Rebuilt(w, res, jobs).availableCores <==>
            !exists id :: id in Hosted(jobs, w) && c in CoresOn(jobs[id], w)
    ensures forall i, j | i in Hosted(jobs, w) && j in Hosted(jobs, w) ::
              c in CoresOn(jobs[i], w) && c in CoresOn(jobs[j], w) ==> i == j
  {
    FreeMembers(res.cpuCores, UsedCores(jobs, w));
    forall i, j | i in Hosted(jobs, w) && j in Hosted(jobs, w) && c in CoresOn(jobs[i], w) && c in CoresOn(jobs[j], w)
      ensures i == j
    {
      assert Apart(jobs[i], jobs[j], w) || i == j;
    }
  }

  /** The same for the devices of each kind. */
  lemma GresPartition(w: WorkerId, res: Hardware, jobs: map<JobId, Job>, name: string, g: nat)
    requires Disjoint(jobs) && name in res.gres && g < DeviceCount(res, name)
    ensures g in Rebuilt(w, res, jobs).availableGres[name] <==>
            !exists id :: id in Hosted(jobs, w) && g in Lookup(GresOn(jobs[id], w), name)
    ensures forall i, j | i in Hosted(jobs, w) && j in Hosted(jobs, w) ::
              g in Lookup(GresOn(jobs[i], w), name) && g in Lookup(GresOn(jobs[j], w), name) ==> i == j
  {
    FreeMembers(DeviceCount(res, name), UsedGres(jobs, w, name));
    forall i, j | i in Hosted(jobs, w) && j in Hosted(jobs, w) &&
        g in Lookup(GresOn(jobs[i], w), name) && g in Lookup(GresOn(jobs[j], w), name)
      ensures i == j
    {
      assert Apart(jobs[i], jobs[j], w) || i == j;
    }
  }

  // ----- the same, from the job table and the hardware alone -----

  /** The running job has the core on the worker. */
  ghost predicate HasCore(job: Job, w: WorkerId, c: nat) {
    job.status == Running && w in job.assignedWorkers && w in job.allocatedCores && c in job.allocatedCores[w]
  }

  /** The running job has the device on the worker. */
  ghost predicate HasDevice(job: Job, w: WorkerId, name: string, g: nat) {
    && job.status == Running && w in job.assignedWorkers
    && w in job.allocatedGres && name in job.allocatedGres[w] && g in job.allocatedGres[w][name]
  }

  /** Which cores are free: the numbers below the machine's count, in order, that
      no running job has. */
  lemma CoresPlainly(w: WorkerId, res: Hardware, jobs: map<JobId, Job>)
    ensures var free := Rebuilt(w, res, jobs).availableCores;
            && Ascending(free)
            && forall c: nat :: c in free <==> c < res.cpuCores && !exists id :: id in jobs && HasCore(jobs[id], w, c)
  {
    FreeMembers(res.cpuCores, UsedCores(jobs, w));
    forall c: nat ensures c in UsedCores(jobs, w) <==> exists id :: id in jobs && HasCore(jobs[id], w, c) {
      if id :| id in Hosted(jobs, w) && c in CoresOn(jobs[id], w) { assert HasCore(jobs[id], w, c); }
      if id :| id in jobs && HasCore(jobs[id], w, c) { assert id in Hosted(jobs, w) && c in CoresOn(jobs[id], w); }
    }
  }

  /** Which devices are free: for each kind that the machine has, and for no other,
      the numbers below its count as a 32-bit number, in order, that no running job
      has. */
  lemma DevicesPlainly(w: WorkerId, res: Hardware, jobs: map<JobId, Job>, name: string)
    ensures var free := Rebuilt(w, res, jobs).availableGres;
            && (name in free <==> name in res.gres)
            && (name in res.gres ==>
                  && Ascending(free[name])
                  && forall g: nat :: g in free[name] <==>
                       g < res.gres[name] % 0x1_0000_0000
                       && !exists id :: id in jobs && HasDevice(jobs[id], w, name, g))
  {
    if name in res.gres {
      FreeMembers(DeviceCount(res, name), UsedGres(jobs, w, name));
      forall g: nat ensures g in UsedGres(jobs, w, name) <==> exists id :: id in jobs && HasDevice(jobs[id], w, name, g) {
        if id :| id in Hosted(jobs, w) && g in Lookup(GresOn(jobs[id], w), name) {
          assert HasDevice(jobs[id], w, name, g);
        }
        if id :| id in jobs && HasDevice(jobs[id], w, name, g) {
          assert id in Hosted(jobs, w) && g in Lookup(GresOn(jobs[id], w), name);
        }
      }
    }
  }

  /** The core is free exactly when the machine has it and no running job does. */
  ghost predicate CoreIsRight(a: Allocation, w: WorkerId, res: Hardware, jobs: map<JobId, Job>, c: nat) {
    c in a.availableCores <==> c < res.cpuCores && !exists id :: id in jobs && HasCore(jobs[id], w, c)
  }

  ghost predicate DeviceIsRight(a: Allocation, w: WorkerId, res: Hardware, jobs: map<JobId, Job>, name: string, g: nat)
    requires name in res.gres && name in a.availableGres
  {
    g in a.availableGres[name] <==>
      g < res.gres[name] % 0x1_0000_0000 && !exists id :: id in jobs && HasDevice(jobs[id], w, name, g)
  }

  lemma FreePlainly(a: Allocation, w: WorkerId, res: Hardware, jobs: map<JobId, Job>)
    requires SameFree(a, Rebuilt(w, res, jobs))
    ensures forall c: nat :: CoreIsRight(a, w, res, jobs, c)
    ensures a.availableGres.Keys == res.gres.Keys
    ensures forall name, g: nat | name in res.gres :: DeviceIsRight(a, w, res, jobs, name, g)
  {
    CoresPlainly(w, res, jobs);
    forall name, g: nat | name in res.gres ensures name in a.availableGres && DeviceIsRight(a, w, res, jobs, name, g) {
      DevicesPlainly(w, res, jobs, name);
    }
    forall name ensures name in a.availableGres <==> name in res.gres { DevicesPlainly(w, res, jobs, name); }
  }

  /** Which jobs the worker has, and what is on record for each of them. */
  lemma JobsPlainly(w: WorkerId, res: Hardware, jobs: map<JobId, Job>, id: JobId)
    ensures var a := Rebuilt(w, res, jobs);
            && (id in a.assignedJobs <==> id in jobs && jobs[id].status == Running && w in jobs[id].assignedWorkers)
            && (id in a.jobCores <==> id in a.assignedJobs && w in jobs[id].allocatedCores)
            && (id in a.jobCores ==> a.jobCores[id] == jobs[id].allocatedCores[w])
            && (id in a.jobGres <==> id in a.assignedJobs && w in jobs[id].allocatedGres)
            && (id in a.jobGres ==> a.jobGres[id] == jobs[id].allocatedGres[w])
    ensures var a := Rebuilt(w, res, jobs);
            a.assignedJobs <= jobs.Keys && a.allocatedMemory == Memory(jobs, a.assignedJobs) % 0x1_0000_0000_0000_0000
  {
  }
}
