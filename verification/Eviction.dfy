/** Starting an interactive job by preempting others: the test by which workers
    are chosen, and when it leaves enough room for the unchecked hand-out. */
module Eviction {
  import opened Common
  import opened JobStatusText
  import opened Allocations
  import opened Release
  import opened HandOut
  import opened Controller

  // ----- what held lists add up to -----

  type Lists = map<JobId, seq<nat>>

  ghost function Lens(h: Lists, ids: set<JobId>): nat
    requires ids <= h.Keys
  {
    if ids == {} then 0 else var id :| id in ids; |h[id]| + Lens(h, ids - {id})
  }

  lemma {:induction false} LensRemove(h: Lists, ids: set<JobId>, id: JobId)
    requires ids <= h.Keys && id in ids
    ensures Lens(h, ids) == |h[id]| + Lens(h, ids - {id})
    decreases |ids|
  {
    var first :| first in ids && Lens(h, ids) == |h[first]| + Lens(h, ids - {first});
    if first != id {
      LensRemove(h, ids - {first}, id);
      LensRemove(h, ids - {id}, first);
      assert ids - {first} - {id} == ids - {id} - {first};
    }
  }

  ghost function UsedBy(h: Lists, ids: set<JobId>): set<nat>
    requires ids <= h.Keys
  {
    set id, x | id in ids && x in h[id] :: x
  }

  ghost predicate PairwiseApart(h: Lists) {
    forall i, j, x :: i in h && j in h && i != j && x in h[i] ==> x !in h[j]
  }

  /** A list of numbers below `n`, each once. */
  ghost predicate Proper(s: seq<nat>, n: nat) {
    Distinct(s) && forall x :: x in s ==> x < n
  }

  function BelowOf(s: seq<nat>, n: nat): set<nat> {
    set x | x in s && x < n
  }

  lemma {:induction false} BelowSize(s: seq<nat>, n: nat)
    ensures |BelowOf(s, n)| <= |s| && (|BelowOf(s, n)| == |s| <==> Proper(s, n))
  {
    if s == [] {
      assert BelowOf(s, n) == {};
    } else {
      var init, x := s[..|s| - 1], s[|s| - 1];
      BelowSize(init, n);
      assert s == init + [x];
      assert BelowOf(s, n) == BelowOf(init, n) + (if x < n then {x} else {});
      ProperSnoc(init, x, n);
    }
  }

  lemma ProperSnoc(init: seq<nat>, x: nat, n: nat)
    ensures Proper(init + [x], n) <==> Proper(init, n) && x < n && x !in init
  {
    var s := init + [x];
    if Proper(s, n) {
      assert forall i :: 0 <= i < |init| ==> s[i] == init[i] && s[i] != s[|init|];
      assert forall y :: y in init ==> y in s;
      assert x in s;
    }
  }

  lemma {:induction false} FreeAgree(n: nat, used: set<nat>, used': set<nat>)
    requires forall x: nat :: x < n ==> (x in used <==> x in used')
    ensures Free(n, used) == Free(n, used')
  {
    if n > 0 { FreeAgree(n - 1, used, used'); }
  }

  lemma {:induction false} FreeInsert(n: nat, used: set<nat>, x: nat)
    requires x < n && x !in used
    ensures |Free(n, used)| == |Free(n, used + {x})| + 1
  {
    if x == n - 1 { FreeAgree(n - 1, used, used + {x}); } else { FreeInsert(n - 1, used, x); }
  }

  lemma {:induction false} FreeInsertAll(n: nat, used: set<nat>, xs: set<nat>)
    requires xs !! used && forall x :: x in xs ==> x < n
    ensures |Free(n, used)| == |Free(n, used + xs)| + |xs|
    decreases |xs|
  {
    if xs == {} {
      assert used + xs == used;
    } else {
      var x :| x in xs;
      FreeInsertAll(n, used, xs - {x});
      FreeInsert(n, used + (xs - {x}), x);
      assert used + (xs - {x}) + {x} == used + xs;
    }
  }

  /** Giving up one list frees as many numbers as it has below `n`. */
  lemma OneListFreed(h: Lists, n: nat, all: set<JobId>, id: JobId)
    requires PairwiseApart(h) && id in all && all <= h.Keys
    ensures |Free(n, UsedBy(h, all - {id}))| == |Free(n, UsedBy(h, all))| + |BelowOf(h[id], n)|
  {
    var used := UsedBy(h, all - {id});
    FreeInsertAll(n, used, BelowOf(h[id], n));
    FreeAgree(n, used + BelowOf(h[id], n), UsedBy(h, all));
  }

  /** Giving up lists frees at most as many numbers as they are long, and exactly
      as many when they are proper lists and only then. */
  lemma {:induction false} RoomMade(h: Lists, n: nat, all: set<JobId>, out: set<JobId>)
    requires PairwiseApart(h) && out <= all <= h.Keys
    ensures |Free(n, UsedBy(h, all - out))| <= |Free(n, UsedBy(h, all))| + Lens(h, out)
    ensures |Free(n, UsedBy(h, all - out))| == |Free(n, UsedBy(h, all))| + Lens(h, out) <==>
            forall id :: id in out ==> Proper(h[id], n)
    decreases |out|
  {
    if out == {} {
      assert all - out == all;
    } else {
      var id :| id in out;
      RoomMade(h, n, all - {id}, out - {id});
      assert all - {id} - (out - {id}) == all - out;
      OneListFreed(h, n, all, id);
      LensRemove(h, out, id);
      BelowSize(h[id], n);
      assert (forall i :: i in out ==> Proper(h[i], n)) <==>
             Proper(h[id], n) && forall i :: i in out - {id} ==> Proper(h[i], n);
    }
  }

  // ----- the scheduler's test -----

  /** The preemptible jobs on a worker. */
  function Victims(a: Allocation, jobs: map<JobId, Job>): set<JobId> {
    set id | id in a.assignedJobs && id in jobs && jobs[id].qos == Preemptible
  }

  function CoreLists(a: Allocation): Lists {
    map id | id in a.assignedJobs :: if id in a.jobCores then a.jobCores[id] else []
  }

  function GresLists(a: Allocation, name: string): Lists {
    map id | id in a.assignedJobs :: if id in a.jobGres then Lookup(a.jobGres[id], name) else []
  }

  function Count(counts: map<string, nat>, name: string): nat {
    if name in counts then counts[name] else 0
  }

  method AddCounts(counts: map<string, nat>, gres: Gres) returns (sum: map<string, nat>)
    ensures forall name :: Count(sum, name) == Count(counts, name) + |Lookup(gres, name)|
  {
    sum := counts;
    var todo := gres.Keys;
    while todo != {}
      invariant todo <= gres.Keys
      invariant forall name :: Count(sum, name) ==
                  Count(counts, name) + if name in gres && name !in todo then |gres[name]| else 0
      decreases |todo|
    {
      var name :| name in todo;
      sum := sum[name := Count(sum, name) + |gres[name]|];
      todo := todo - {name};
    }
  }

  /** What the victims seen so far hold. */
  ghost predicate Counted(a: Allocation, jobs: map<JobId, Job>, seen: set<JobId>, cores: nat, memory: nat, gres: map<string, nat>)
    requires seen <= a.assignedJobs && seen <= jobs.Keys
  {
    && cores == Lens(CoreLists(a), seen) && memory == Memory(jobs, seen)
    && forall name :: Count(gres, name) == Lens(GresLists(a, name), seen)
  }

  lemma CountedNext(a: Allocation, jobs: map<JobId, Job>, seen: set<JobId>, id: JobId, cores: nat, memory: nat,
                    gres: map<string, nat>, gres': map<string, nat>)
    requires seen <= a.assignedJobs && seen <= jobs.Keys && id in a.assignedJobs && id in jobs && id !in seen
    requires Counted(a, jobs, seen, cores, memory, gres)
    requires forall name :: Count(gres', name) == Count(gres, name) + |GresLists(a, name)[id]|
    ensures Counted(a, jobs, seen + {id}, cores + |CoreLists(a)[id]|, memory + jobs[id].reqMemory, gres')
  {
    var next := seen + {id};
    assert next - {id} == seen;
    LensRemove(CoreLists(a), next, id);
    MemoryRemove(jobs, next, id);
    forall name ensures Count(gres', name) == Lens(GresLists(a, name), next) {
      LensRemove(GresLists(a, name), next, id);
    }
  }

  lemma VictimsNext(a: Allocation, jobs: map<JobId, Job>, todo: set<JobId>, id: JobId)
    requires id in todo && todo <= a.assignedJobs
    ensures var seen := Victims(a, jobs) - todo;
            && id !in seen && seen <= a.assignedJobs && seen <= jobs.Keys
            && Victims(a, jobs) - (todo - {id}) ==
               if id in jobs && jobs[id].qos == Preemptible then seen + {id} else seen
  {
  }

  lemma NothingCounted(a: Allocation, jobs: map<JobId, Job>)
    ensures Victims(a, jobs) - a.assignedJobs == {} && Counted(a, jobs, {}, 0, 0, map[])
  {
  }

  /** Adds up what the preemptible jobs on a worker hold, in an arbitrary order. */
  method CountPreemptible(a: Allocation, jobs: map<JobId, Job>)
    returns (victims: set<JobId>, cores: nat, memory: nat, gres: map<string, nat>)
    ensures victims == Victims(a, jobs) && Counted(a, jobs, victims, cores, memory, gres)
  {
    victims, cores, memory, gres := {}, 0, 0, map[];
    var todo := a.assignedJobs;
    NothingCounted(a, jobs);
    while todo != {}
      invariant todo <= a.assignedJobs && victims <= a.assignedJobs && victims <= jobs.Keys
      invariant victims == Victims(a, jobs) - todo
      invariant Counted(a, jobs, victims, cores, memory, gres)
      decreases |todo|
    {
      var id :| id in todo;
      VictimsNext(a, jobs, todo, id);
      if id in jobs && jobs[id].qos == Preemptible {
        var held := if id in a.jobGres then a.jobGres[id] else map[];
        ghost var before := gres;
        gres := AddCounts(gres, held);
        CountedNext(a, jobs, victims, id, cores, memory, before, gres);
        cores := cores + if id in a.jobCores then |a.jobCores[id]| else 0;
        memory, victims := memory + jobs[id].reqMemory, victims + {id};
      }
      todo := todo - {id};
    }
  }

  /** The test: would the job fit if all preemptible jobs went? */
  ghost predicate Eligible(worker: Worker, jobs: map<JobId, Job>, job: Job) {
    var a, vs := worker.alloc, Victims(worker.alloc, jobs);
    && |a.availableCores| + Lens(CoreLists(a), vs) >= job.reqCores
    && SaturatingSub(worker.resources.totalMemory / 1024 / 1024, a.allocatedMemory) + Memory(jobs, vs) >= job.reqMemory
    && forall name :: name in job.gresReq ==>
         |Lookup(a.availableGres, name)| + Lens(GresLists(a, name), vs) >= job.gresReq[name]
  }

  method IsEligible(worker: Worker, jobs: map<JobId, Job>, job: Job) returns (ok: bool)
    ensures ok <==> Eligible(worker, jobs, job)
  {
    var a := worker.alloc;
    var _, cores, memory, gres := CountPreemptible(a, jobs);
    var gresOk := forall name :: name in job.gresReq ==>
                    |Lookup(a.availableGres, name)| + Count(gres, name) >= job.gresReq[name];
    ok := && |a.availableCores| + cores >= job.reqCores
          && SaturatingSub(worker.resources.totalMemory / 1024 / 1024, a.allocatedMemory) + memory >= job.reqMemory
          && gresOk;
  }

  // ----- after the evictions -----

  /** The set covers the worker's victims and holds nothing but preemptible jobs. */
  ghost predicate Covers(out: set<JobId>, a: Allocation, jobs: map<JobId, Job>) {
    Victims(a, jobs) <= out && forall id :: id in out && id in jobs ==> jobs[id].qos == Preemptible
  }

  lemma HostedAfter(a: Allocation, w: WorkerId, res: Hardware, jobs: map<JobId, Job>, out: set<JobId>)
    requires Agrees(a, Rebuilt(w, res, jobs)) && Covers(out, a, jobs)
    ensures a.assignedJobs == Hosted(jobs, w) && Victims(a, jobs) <= Hosted(jobs, w)
    ensures Hosted(Evicted(jobs, out), w) == Hosted(jobs, w) - Victims(a, jobs)
    ensures forall id :: id in Hosted(Evicted(jobs, out), w) ==> Evicted(jobs, out)[id] == jobs[id]
  {
  }

  /** The lists on record are those of the job table. */
  lemma ListsOnRecord(a: Allocation, w: WorkerId, res: Hardware, jobs: map<JobId, Job>, id: JobId)
    requires Agrees(a, Rebuilt(w, res, jobs)) && id in Hosted(jobs, w)
    ensures id in a.assignedJobs && CoreLists(a)[id] == CoresOn(jobs[id], w)
    ensures forall name :: GresLists(a, name)[id] == Lookup(GresOn(jobs[id], w), name)
  {
    RecordedLists(a, w, res, jobs, id);
  }

  lemma ListsApart(a: Allocation, w: WorkerId, res: Hardware, jobs: map<JobId, Job>, name: string)
    requires Agrees(a, Rebuilt(w, res, jobs)) && Disjoint(jobs) && a.assignedJobs == Hosted(jobs, w)
    ensures PairwiseApart(CoreLists(a)) && PairwiseApart(GresLists(a, name))
  {
    forall id | id in Hosted(jobs, w)
      ensures CoreLists(a)[id] == CoresOn(jobs[id], w)
      ensures GresLists(a, name)[id] == Lookup(GresOn(jobs[id], w), name)
    {
      ListsOnRecord(a, w, res, jobs, id);
    }
    forall i, j | i in Hosted(jobs, w) && j in Hosted(jobs, w) && i != j ensures Apart(jobs[i], jobs[j], w) {}
  }

  /** `jobs'` has some of the jobs that run on the worker in `jobs`, unchanged. */
  lemma UsedByLists(a: Allocation, w: WorkerId, res: Hardware, jobs: map<JobId, Job>, jobs': map<JobId, Job>, name: string)
    requires Agrees(a, Rebuilt(w, res, jobs)) && a.assignedJobs == Hosted(jobs, w)
    requires Hosted(jobs', w) <= Hosted(jobs, w) && forall id :: id in Hosted(jobs', w) ==> jobs'[id] == jobs[id]
    ensures UsedCores(jobs', w) == UsedBy(CoreLists(a), Hosted(jobs', w))
    ensures UsedGres(jobs', w, name) == UsedBy(GresLists(a, name), Hosted(jobs', w))
  {
    forall id | id in Hosted(jobs', w)
      ensures CoreLists(a)[id] == CoresOn(jobs'[id], w)
      ensures GresLists(a, name)[id] == Lookup(GresOn(jobs'[id], w), name)
    {
      ListsOnRecord(a, w, res, jobs, id);
    }
  }

  /** How the free lists grow when the victims go: never by more than the test
      counts, and by exactly that much when, and only when, the victims' lists are
      within the machine and without repeats. */
  lemma CountedExactly(a: Allocation, a': Allocation, w: WorkerId, res: Hardware, jobs: map<JobId, Job>,
                       out: set<JobId>, name: string)
    requires Agrees(a, Rebuilt(w, res, jobs)) && Disjoint(jobs) && Covers(out, a, jobs)
    requires Agrees(a', Rebuilt(w, res, Evicted(jobs, out)))
    ensures var vs := Victims(a, jobs);
            && |a'.availableCores| <= |a.availableCores| + Lens(CoreLists(a), vs)
            && (|a'.availableCores| == |a.availableCores| + Lens(CoreLists(a), vs) <==>
                forall id :: id in vs ==> Proper(CoreLists(a)[id], res.cpuCores))
    ensures var vs := Victims(a, jobs);
            && |Lookup(a'.availableGres, name)| <= |Lookup(a.availableGres, name)| + Lens(GresLists(a, name), vs)
            && (|Lookup(a'.availableGres, name)| == |Lookup(a.availableGres, name)| + Lens(GresLists(a, name), vs) <==>
                forall id :: id in vs ==> Proper(GresLists(a, name)[id], DeviceCount(res, name)))
  {
    var jobs', all, vs := Evicted(jobs, out), Hosted(jobs, w), Victims(a, jobs);
    HostedAfter(a, w, res, jobs, out);
    ListsApart(a, w, res, jobs, name);
    UsedByLists(a, w, res, jobs, jobs, name);
    UsedByLists(a, w, res, jobs, jobs', name);
    RoomMade(CoreLists(a), res.cpuCores, all, vs);
    RoomMade(GresLists(a, name), DeviceCount(res, name), all, vs);
    KindFree(a, w, res, jobs, name);
    KindFree(a', w, res, jobs', name);
  }

  lemma KindFree(a: Allocation, w: WorkerId, res: Hardware, jobs: map<JobId, Job>, name: string)
    requires Agrees(a, Rebuilt(w, res, jobs))
    ensures Lookup(a.availableGres, name) == Free(DeviceCount(res, name), UsedGres(jobs, w, name))
    ensures a.availableCores == Free(res.cpuCores, UsedCores(jobs, w))
  {
    assert Lookup(a.availableGres, name) == Lookup(Rebuilt(w, res, jobs).availableGres, name);
    FreeGresLookup(w, res, jobs, name);
  }

  lemma {:induction false} MemorySplit(jobs: map<JobId, Job>, all: set<JobId>, out: set<JobId>)
    requires out <= all <= jobs.Keys
    ensures Memory(jobs, all) == Memory(jobs, all - out) + Memory(jobs, out)
    decreases |out|
  {
    if out == {} {
      assert all - out == all;
    } else {
      var id :| id in out;
      MemorySplit(jobs, all - {id}, out - {id});
      assert all - {id} - (out - {id}) == all - out;
      MemoryRemove(jobs, all, id);
      MemoryRemove(jobs, out, id);
    }
  }

  lemma MemoryWithoutSome(a: Allocation, a': Allocation, w: WorkerId, res: Hardware,
                          jobs: map<JobId, Job>, jobs': map<JobId, Job>, out: set<JobId>)
    requires Agrees(a, Rebuilt(w, res, jobs)) && Agrees(a', Rebuilt(w, res, jobs'))
    requires Memory(jobs, Hosted(jobs, w)) < TWO_64
    requires out <= Hosted(jobs, w) && Hosted(jobs', w) == Hosted(jobs, w) - out
    requires forall id :: id in Hosted(jobs', w) ==> jobs'[id] == jobs[id]
    ensures a.allocatedMemory == a'.allocatedMemory + Memory(jobs, out) < TWO_64
  {
    MemoryPart(jobs, jobs', Hosted(jobs, w), out, Hosted(jobs', w));
    AgreedMemory(a, w, res, jobs);
    AgreedMemory(a', w, res, jobs');
  }

  lemma MemoryPart(jobs: map<JobId, Job>, jobs': map<JobId, Job>, all: set<JobId>, out: set<JobId>, rest: set<JobId>)
    requires out <= all <= jobs.Keys && rest == all - out && rest <= jobs'.Keys
    requires forall id :: id in rest ==> jobs'[id] == jobs[id]
    ensures Memory(jobs, all) == Memory(jobs', rest) + Memory(jobs, out)
  {
    MemorySplit(jobs, all, out);
    MemorySame(jobs, jobs', rest);
  }

  /** The lists that the worker's victims hold are within it and without repeats. */
  ghost predicate ProperVictims(worker: Worker, jobs: map<JobId, Job>) {
    forall id :: id in Victims(worker.alloc, jobs) ==>
      && Proper(CoreLists(worker.alloc)[id], worker.resources.cpuCores)
      && forall name :: Proper(GresLists(worker.alloc, name)[id], DeviceCount(worker.resources, name))
  }

  /** Then a worker that passes the test has room for the job once its victims are
      gone; its memory is not overcommitted unless it was so before. */
  lemma EligibleFits(worker: Worker, a': Allocation, w: WorkerId, jobs: map<JobId, Job>, out: set<JobId>, job: Job)
    requires Agrees(worker.alloc, Rebuilt(w, worker.resources, jobs)) && SoundTable(jobs)
    requires Covers(out, worker.alloc, jobs) && ProperVictims(worker, jobs)
    requires Agrees(a', Rebuilt(w, worker.resources, Evicted(jobs, out)))
    requires Eligible(worker, jobs, job)
    ensures Fits(a', job)
    ensures var total := worker.resources.totalMemory / 1024 / 1024;
            worker.alloc.allocatedMemory <= total ==> a'.allocatedMemory + job.reqMemory <= total
  {
    HostedAfter(worker.alloc, w, worker.resources, jobs, out);
    MemoryWithoutSome(worker.alloc, a', w, worker.resources, jobs, Evicted(jobs, out), Victims(worker.alloc, jobs));
    CountedExactly(worker.alloc, a', w, worker.resources, jobs, out, "");
    forall name | name in job.gresReq ensures job.gresReq[name] <= |Lookup(a'.availableGres, name)| {
      CountedExactly(worker.alloc, a', w, worker.resources, jobs, out, name);
    }
  }

  /** Under the same condition the test is exact: it passes exactly when, once the
      victims are gone, there are enough cores and devices, and enough memory to
      overcommit the worker no more than it was. */
  lemma EligibleExactly(worker: Worker, a': Allocation, w: WorkerId, jobs: map<JobId, Job>, out: set<JobId>, job: Job)
    requires Agrees(worker.alloc, Rebuilt(w, worker.resources, jobs)) && SoundTable(jobs)
    requires Covers(out, worker.alloc, jobs) && ProperVictims(worker, jobs)
    requires Agrees(a', Rebuilt(w, worker.resources, Evicted(jobs, out)))
    ensures Eligible(worker, jobs, job) <==>
            var total, handedOut := worker.resources.totalMemory / 1024 / 1024, worker.alloc.allocatedMemory;
            && job.reqCores <= |a'.availableCores|
            && a'.allocatedMemory + job.reqMemory <= (if total < handedOut then handedOut else total)
            && forall name :: name in job.gresReq ==> job.gresReq[name] <= |Lookup(a'.availableGres, name)|
  {
    HostedAfter(worker.alloc, w, worker.resources, jobs, out);
    MemoryWithoutSome(worker.alloc, a', w, worker.resources, jobs, Evicted(jobs, out), Victims(worker.alloc, jobs));
    CountedExactly(worker.alloc, a', w, worker.resources, jobs, out, "");
    forall name | name in job.gresReq
      ensures |Lookup(a'.availableGres, name)| ==
              |Lookup(worker.alloc.availableGres, name)| + Lens(GresLists(worker.alloc, name), Victims(worker.alloc, jobs))
    {
      CountedExactly(worker.alloc, a', w, worker.resources, jobs, out, name);
    }
  }

  /** The victims on all selected workers. */
  ghost function AllVictims(workers: map<WorkerId, Worker>, jobs: map<JobId, Job>, selected: seq<WorkerId>): set<JobId>
    requires forall w :: w in selected ==> w in workers
  {
    set w, id | w in selected && id in Victims(workers[w].alloc, jobs) :: id
  }

  /** They are the preemptible jobs that run on one of them. */
  lemma VictimsPlainly(workers: map<WorkerId, Worker>, jobs: map<JobId, Job>, selected: seq<WorkerId>, id: JobId)
    requires Coherent(workers, jobs) && forall w :: w in selected ==> w in workers
    ensures id in AllVictims(workers, jobs, selected) <==>
            && id in jobs && jobs[id].status == Running && jobs[id].qos == Preemptible
            && exists w :: w in selected && w in jobs[id].assignedWorkers
  {
    forall w | w in selected
      ensures id in Victims(workers[w].alloc, jobs) <==>
              id in jobs && jobs[id].status == Running && jobs[id].qos == Preemptible && w in jobs[id].assignedWorkers
    {
      assert InStep(workers, jobs, w);
    }
  }

  method CollectVictims(c: Controller, selected: seq<WorkerId>) returns (victims: set<JobId>)
    requires forall w :: w in selected ==> w in c.workers
    ensures victims == AllVictims(c.workers, c.jobs, selected)
  {
    victims := {};
    for i := 0 to |selected|
      invariant victims == AllVictims(c.workers, c.jobs, selected[..i])
    {
      var some, _, _, _ := CountPreemptible(c.workers[selected[i]].alloc, c.jobs);
      assert selected[..i + 1] == selected[..i] + [selected[i]];
      victims := victims + some;
    }
    assert selected[..|selected|] == selected;
  }

  /** Evicts every victim on the selected workers and starts the job there. */
  method StartWithEvictions(c: Controller, id: JobId, selected: seq<WorkerId>, now: nat)
    requires c.Valid() && id in c.jobs && c.jobs[id].status != Running && Distinct(selected)
    requires forall w :: w in selected ==>
               w in c.workers && Eligible(c.workers[w], c.jobs, c.jobs[id]) && ProperVictims(c.workers[w], c.jobs)
    modifies c
    ensures c.Valid() && SameMachines(c.workers, old(c.workers))
    ensures id in c.jobs
    ensures c.jobs[id] == StartedJob(old(c.jobs)[id], selected, c.jobs[id].allocatedCores, c.jobs[id].allocatedGres, now)
    ensures c.jobs == Evicted(old(c.jobs), AllVictims(old(c.workers), old(c.jobs), selected))[id := c.jobs[id]]
  {
    var victims := CollectVictims(c, selected);
    ghost var workers, jobs, job := c.workers, c.jobs, c.jobs[id];
    c.EvictAll(victims);
    assert id in c.jobs && c.jobs[id] == job;
    forall w | w in selected ensures w in c.workers && Fits(c.workers[w].alloc, job) {
      RoomOn(workers, c.workers, jobs, selected, w, job);
    }
    c.StartJob(id, selected, now);
  }

  lemma RoomOn(workers: map<WorkerId, Worker>, workers': map<WorkerId, Worker>, jobs: map<JobId, Job>,
               selected: seq<WorkerId>, w: WorkerId, job: Job)
    requires forall v :: v in selected ==> v in workers
    requires w in selected && Coherent(workers, jobs) && SameMachines(workers', workers)
    requires Coherent(workers', Evicted(jobs, AllVictims(workers, jobs, selected)))
    requires Eligible(workers[w], jobs, job) && ProperVictims(workers[w], jobs)
    ensures w in workers' && Fits(workers'[w].alloc, job)
  {
    var out := AllVictims(workers, jobs, selected);
    assert InStep(workers, jobs, w) && InStep(workers', Evicted(jobs, out), w);
    VictimsCovered(workers, jobs, selected, w);
    EligibleFits(workers[w], workers'[w].alloc, w, jobs, out, job);
  }

  lemma VictimsCovered(workers: map<WorkerId, Worker>, jobs: map<JobId, Job>, selected: seq<WorkerId>, w: WorkerId)
    requires w in selected && forall v :: v in selected ==> v in workers
    ensures Covers(AllVictims(workers, jobs, selected), workers[w].alloc, jobs)
  {
  }
}
