/** The read cache of workers and jobs that dashboards observe, brought up to
    date from the authoritative state, with an event only when it changed. */
module StateSync {
  import opened Common
  import opened JobStatusText

  /** A machine float: comparing not-a-number with itself yields false. */
  datatype Float = Num(value: real) | NaN

  predicate FloatEq(a: Float, b: Float) {
    a.Num? && b.Num? && a.value == b.value
  }

  datatype Resources = Resources(
    cpuCores: nat, totalMemory: nat, freeMemory: nat, cpuUsage: Float, cpuModel: string, arch: string,
    osName: string, osVersion: string, kernelVersion: string, hostName: string, loadAvg: seq<Float>,
    diskTotal: nat, diskFree: nat, uptime: nat, bootTime: nat, processCount: nat,
    swapTotal: nat, swapFree: nat, version: string, gres: map<string, nat>, cgroupEnabled: bool)

  /** Equality but for the telemetry fields: free memory, load, usage, free disk
      and swap, uptime and process count. */
  predicate ResourcesMetadataEq(a: Resources, b: Resources) {
    && a.cpuCores == b.cpuCores && a.totalMemory == b.totalMemory && a.cpuModel == b.cpuModel
    && a.arch == b.arch && a.osName == b.osName && a.osVersion == b.osVersion
    && a.kernelVersion == b.kernelVersion && a.hostName == b.hostName && a.diskTotal == b.diskTotal
    && a.bootTime == b.bootTime && a.swapTotal == b.swapTotal && a.version == b.version
    && a.gres == b.gres && a.cgroupEnabled == b.cgroupEnabled
  }

  datatype WorkerHandle = WorkerHandle(
    resources: Resources, draining: bool, connected: bool, availableCoreIds: seq<nat>,
    allocatedMemory: nat, assignedJobs: set<nat>)

  datatype WorkerSyncState = WorkerSyncState(
    draining: bool, connected: bool, availableCores: nat, allocatedMemory: nat, assignedJobs: set<nat>)

  function SyncStateOf(w: WorkerHandle): WorkerSyncState {
    WorkerSyncState(w.draining, w.connected, |w.availableCoreIds|, w.allocatedMemory, w.assignedJobs)
  }

  /** A job; `floats` are its live CPU usage and MPI timing. */
  datatype JobInfo = JobInfo(id: nat, status: JobStatus, assignedWorkers: seq<string>, memory: nat,
                             reason: Option<string>, floats: seq<Float>)

  predicate HasNaN(job: JobInfo) {
    exists i :: 0 <= i < |job.floats| && job.floats[i].NaN?
  }

  /** The derived equality of the source: field by field, floats as floats. */
  predicate JobEq(a: JobInfo, b: JobInfo) {
    && a.id == b.id && a.status == b.status && a.assignedWorkers == b.assignedWorkers
    && a.memory == b.memory && a.reason == b.reason && |a.floats| == |b.floats|
    && forall i :: 0 <= i < |a.floats| ==> FloatEq(a.floats[i], b.floats[i])
  }

  lemma JobEqExactly(a: JobInfo, b: JobInfo)
    ensures JobEq(a, b) <==> a == b && !HasNaN(b)
  {
    if JobEq(a, b) {
      forall i | 0 <= i < |a.floats| ensures a.floats[i] == b.floats[i] && b.floats[i].Num? {
        assert FloatEq(a.floats[i], b.floats[i]);
      }
    }
  }

  type WorkerCache = map<string, (Resources, WorkerSyncState)>

  datatype Authority = Authority(workers: map<string, WorkerHandle>, jobs: map<nat, JobInfo>)

  /** The cached entry still describes the worker. */
  predicate Describes(entry: (Resources, WorkerSyncState), w: WorkerHandle) {
    ResourcesMetadataEq(entry.0, w.resources) && entry.1 == SyncStateOf(w)
  }

  /** The worker cache after a sync: entries that still describe their worker
      are kept, with their old telemetry. */
  ghost function SyncedWorkers(cache: WorkerCache, workers: map<string, WorkerHandle>): WorkerCache {
    map id | id in workers ::
      if id in cache && Describes(cache[id], workers[id]) then cache[id]
      else (workers[id].resources, SyncStateOf(workers[id]))
  }

  predicate AnyNaN(jobs: map<nat, JobInfo>) {
    exists id :: id in jobs && HasNaN(jobs[id])
  }

  function Restrict<K, V>(m: map<K, V>, keys: set<K>): map<K, V> {
    map k | k in m && k in keys :: m[k]
  }

  lemma RestrictSize<K, V>(m: map<K, V>, keys: set<K>)
    ensures |Restrict(m, keys)| == |m| <==> Restrict(m, keys) == m
  {
    var r := Restrict(m, keys);
    assert m.Keys == r.Keys + (m.Keys - r.Keys);
    if |r| == |m| {
      assert |m.Keys - r.Keys| == 0;
      assert r.Keys == m.Keys;
    }
  }

  class ReadCache {
    var workerResources: WorkerCache
    var activeJobs: map<nat, JobInfo>
    var jobWorkerStats: map<nat, string>
    var globalIdleStart: map<nat, nat>

    constructor ()
      ensures workerResources == map[] && activeJobs == map[]
    {
      workerResources, activeJobs, jobWorkerStats, globalIdleStart := map[], map[], map[], map[];
    }

    method SyncWorkers(workers: map<string, WorkerHandle>) returns (changed: bool)
      modifies this`workerResources
      ensures workerResources == SyncedWorkers(old(workerResources), workers)
      ensures changed <==> workerResources != old(workerResources)
    {
      var prevLen := |workerResources|;
      workerResources := Restrict(workerResources, workers.Keys);
      RestrictSize(old(workerResources), workers.Keys);
      changed := |workerResources| != prevLen;
      var refreshed := RefreshWorkers(workers);
      changed := changed || refreshed;
      RewrittenExactly(old(workerResources), workers);
    }

    /** Visits the workers in an arbitrary order and writes the entries that no
        longer describe them. */
    method RefreshWorkers(workers: map<string, WorkerHandle>) returns (changed: bool)
      requires workerResources.Keys <= workers.Keys
      modifies this`workerResources
      ensures workerResources == SyncedWorkers(old(workerResources), workers)
      ensures changed <==> RewrittenSet(old(workerResources), workers) != {}
    {
      changed := false;
      var todo := workers.Keys;
      PartialStart(workerResources, workers);
      while todo != {}
        invariant todo <= workers.Keys
        invariant workerResources == PartialWorkers(old(workerResources), workers, todo)
        invariant changed <==> RewrittenSet(old(workerResources), workers) - todo != {}
        decreases |todo|
      {
        var id :| id in todo;
        PartialNext(old(workerResources), workers, todo, id);
        OneMore(RewrittenSet(old(workerResources), workers), todo, id);
        if !(id in workerResources && Describes(workerResources[id], workers[id])) {
          workerResources := workerResources[id := (workers[id].resources, SyncStateOf(workers[id]))];
          changed := true;
        }
        todo := todo - {id};
      }
      PartialEnd(old(workerResources), workers);
    }

    method SyncJobs(jobs: map<nat, JobInfo>) returns (changed: bool)
      modifies this`activeJobs, this`jobWorkerStats, this`globalIdleStart
      ensures activeJobs == jobs
      ensures changed <==> old(activeJobs) != jobs || AnyNaN(jobs)
      ensures jobWorkerStats == Restrict(old(jobWorkerStats), jobs.Keys)
      ensures globalIdleStart == Restrict(old(globalIdleStart), jobs.Keys)
    {
      var prevLen := |activeJobs|;
      activeJobs := Restrict(activeJobs, jobs.Keys);
      jobWorkerStats := Restrict(jobWorkerStats, jobs.Keys);
      globalIdleStart := Restrict(globalIdleStart, jobs.Keys);
      RestrictSize(old(activeJobs), jobs.Keys);
      changed := |activeJobs| != prevLen;
      var refreshed := RefreshJobs(jobs);
      changed := changed || refreshed;
      RefreshedExactly(old(activeJobs), jobs);
    }

    method RefreshJobs(jobs: map<nat, JobInfo>) returns (changed: bool)
      requires activeJobs.Keys <= jobs.Keys
      modifies this`activeJobs
      ensures activeJobs == jobs
      ensures changed <==> RefreshedSet(old(activeJobs), jobs) != {}
    {
      changed := false;
      var todo := jobs.Keys;
      PartialJobsEnds(activeJobs, jobs);
      while todo != {}
        invariant todo <= jobs.Keys
        invariant activeJobs == PartialJobs(old(activeJobs), jobs, todo)
        invariant changed <==> RefreshedSet(old(activeJobs), jobs) - todo != {}
        decreases |todo|
      {
        var id :| id in todo;
        PartialJobsNext(old(activeJobs), jobs, todo, id);
        OneMore(RefreshedSet(old(activeJobs), jobs), todo, id);
        if id in activeJobs { JobEqExactly(activeJobs[id], jobs[id]); }
        if !(id in activeJobs && JobEq(activeJobs[id], jobs[id])) {
          activeJobs := activeJobs[id := jobs[id]];
          changed := true;
        }
        todo := todo - {id};
      }
    }

    /** Both caches, and the two events that tell observers about them. */
    method SyncActiveState(auth: Authority) returns (nodesUpdated: bool, jobsUpdated: bool)
      modifies this
      ensures workerResources == SyncedWorkers(old(workerResources), auth.workers)
      ensures activeJobs == auth.jobs
      ensures nodesUpdated <==> workerResources != old(workerResources)
      ensures jobsUpdated <==> activeJobs != old(activeJobs) || AnyNaN(auth.jobs)
    {
      nodesUpdated := SyncWorkers(auth.workers);
      jobsUpdated := SyncJobs(auth.jobs);
    }
  }

  /** The worker cache while `todo` is still to be visited. */
  ghost function PartialWorkers(start: WorkerCache, workers: map<string, WorkerHandle>, todo: set<string>): WorkerCache {
    map id | id in workers && (id !in todo || id in start) ::
      if id in todo then start[id] else SyncedWorkers(start, workers)[id]
  }

  lemma PartialStart(start: WorkerCache, workers: map<string, WorkerHandle>)
    requires start.Keys <= workers.Keys
    ensures PartialWorkers(start, workers, workers.Keys) == start
    ensures RewrittenSet(start, workers) - workers.Keys == {}
  {
  }

  lemma PartialEnd(start: WorkerCache, workers: map<string, WorkerHandle>)
    ensures PartialWorkers(start, workers, {}) == SyncedWorkers(start, workers)
    ensures RewrittenSet(start, workers) - {} == RewrittenSet(start, workers)
  {
  }

  lemma PartialNext(start: WorkerCache, workers: map<string, WorkerHandle>, todo: set<string>, id: string)
    requires id in todo && todo <= workers.Keys
    ensures var cache := PartialWorkers(start, workers, todo);
            && (id in RewrittenSet(start, workers) <==> !(id in cache && Describes(cache[id], workers[id])))
            && PartialWorkers(start, workers, todo - {id}) ==
               if id in RewrittenSet(start, workers) then cache[id := (workers[id].resources, SyncStateOf(workers[id]))]
               else cache
  {
  }

  lemma OneMore<T>(s: set<T>, todo: set<T>, x: T)
    requires x in todo
    ensures s - (todo - {x}) != {} <==> s - todo != {} || x in s
  {
    if x in s { assert x in s - (todo - {x}); }
    else { assert s - (todo - {x}) == s - todo; }
  }

  ghost function PartialJobs(start: map<nat, JobInfo>, jobs: map<nat, JobInfo>, todo: set<nat>): map<nat, JobInfo> {
    map id | id in jobs && (id !in todo || id in start) :: if id in todo then start[id] else jobs[id]
  }

  lemma PartialJobsEnds(start: map<nat, JobInfo>, jobs: map<nat, JobInfo>)
    requires start.Keys <= jobs.Keys
    ensures PartialJobs(start, jobs, jobs.Keys) == start && RefreshedSet(start, jobs) - jobs.Keys == {}
    ensures PartialJobs(start, jobs, {}) == jobs && RefreshedSet(start, jobs) - {} == RefreshedSet(start, jobs)
  {
  }

  lemma PartialJobsNext(start: map<nat, JobInfo>, jobs: map<nat, JobInfo>, todo: set<nat>, id: nat)
    requires id in todo && todo <= jobs.Keys
    ensures var cache := PartialJobs(start, jobs, todo);
            && (id in RefreshedSet(start, jobs) <==> !(id in cache && cache[id] == jobs[id] && !HasNaN(jobs[id])))
            && PartialJobs(start, jobs, todo - {id}) ==
               if id in RefreshedSet(start, jobs) then cache[id := jobs[id]] else cache
  {
  }

  /** The workers whose entries a sync writes. */
  ghost function RewrittenSet(start: WorkerCache, workers: map<string, WorkerHandle>): set<string> {
    set id | id in workers && !(id in start && Describes(start[id], workers[id]))
  }

  /** The jobs whose entries a sync writes. */
  ghost function RefreshedSet(start: map<nat, JobInfo>, jobs: map<nat, JobInfo>): set<nat> {
    set id | id in jobs && (id !in start || start[id] != jobs[id] || HasNaN(jobs[id]))
  }

  /** The cache changes exactly when an entry is dropped or written. */
  lemma RewrittenExactly(start: WorkerCache, workers: map<string, WorkerHandle>)
    ensures var kept := Restrict(start, workers.Keys);
            && RewrittenSet(kept, workers) == RewrittenSet(start, workers)
            && SyncedWorkers(kept, workers) == SyncedWorkers(start, workers)
            && (kept != start || RewrittenSet(start, workers) != {} <==> SyncedWorkers(start, workers) != start)
  {
    var synced, kept := SyncedWorkers(start, workers), Restrict(start, workers.Keys);
    assert RewrittenSet(kept, workers) == RewrittenSet(start, workers);
    if id :| id in RewrittenSet(start, workers) {
      assert Describes(synced[id], workers[id]);
      assert id !in start || synced[id] != start[id];
    } else {
      forall id | id in workers ensures id in start && synced[id] == start[id] {
        assert id !in RewrittenSet(start, workers);
      }
      assert kept == synced;
    }
    assert kept != start ==> synced.Keys != start.Keys;
  }

  lemma RefreshedExactly(start: map<nat, JobInfo>, jobs: map<nat, JobInfo>)
    ensures var kept := Restrict(start, jobs.Keys);
            && RefreshedSet(kept, jobs) == RefreshedSet(start, jobs)
            && (kept != start || RefreshedSet(start, jobs) != {} <==> start != jobs || AnyNaN(jobs))
  {
    var kept := Restrict(start, jobs.Keys);
    assert RefreshedSet(kept, jobs) == RefreshedSet(start, jobs);
    if RefreshedSet(start, jobs) == {} {
      forall id | id in jobs ensures id in start && start[id] == jobs[id] && !HasNaN(jobs[id]) {
        assert id !in RefreshedSet(start, jobs);
      }
      assert kept == jobs;
    }
    if AnyNaN(jobs) {
      var id :| id in jobs && HasNaN(jobs[id]);
      assert id in RefreshedSet(start, jobs);
    }
  }

  // ----- observers over whole runs -----

  /** The cache and an observer's copies, which are renewed only on an event. */
  datatype View = View(cache: WorkerCache, jobs: map<nat, JobInfo>, seenWorkers: WorkerCache, seenJobs: map<nat, JobInfo>)

  ghost predicate NodesEvent(v: View, auth: Authority) {
    SyncedWorkers(v.cache, auth.workers) != v.cache
  }

  ghost predicate JobsEvent(v: View, auth: Authority) {
    auth.jobs != v.jobs || AnyNaN(auth.jobs)
  }

  /** One sync under the contract of `SyncActiveState`. */
  ghost function Synced(v: View, auth: Authority): View {
    var cache := SyncedWorkers(v.cache, auth.workers);
    View(cache, auth.jobs,
         if NodesEvent(v, auth) then cache else v.seenWorkers,
         if JobsEvent(v, auth) then auth.jobs else v.seenJobs)
  }

  /** A run: the authoritative state at each sync, in order. Between two syncs
      it may change in any way. */
  ghost function Run(states: seq<Authority>): View {
    if states == [] then View(map[], map[], map[], map[])
    else Synced(Run(states[..|states| - 1]), states[|states| - 1])
  }

  lemma {:induction false} ObserverHasCache(states: seq<Authority>)
    ensures Run(states).seenWorkers == Run(states).cache && Run(states).seenJobs == Run(states).jobs
  {
    if states != [] { ObserverHasCache(states[..|states| - 1]); }
  }

  /** Equal but for free memory, CPU usage, load, free disk, uptime, number of
      processes and free swap. */
  ghost predicate SameButTelemetry(a: Resources, b: Resources) {
    a.(freeMemory := b.freeMemory, cpuUsage := b.cpuUsage, loadAvg := b.loadAvg, diskFree := b.diskFree,
       uptime := b.uptime, processCount := b.processCount, swapFree := b.swapFree) == b
  }

  lemma MetadataEqExactly(a: Resources, b: Resources)
    ensures ResourcesMetadataEq(a, b) <==> SameButTelemetry(a, b)
  {
  }

  /** After every sync of every run, an observer that copies only on events holds
      exactly the authoritative jobs, and for exactly the authoritative workers
      their state and their resources but for the telemetry. */
  lemma ObserverUpToDate(states: seq<Authority>)
    requires states != []
    ensures var v, auth := Run(states), states[|states| - 1];
            && v.seenJobs == auth.jobs
            && v.seenWorkers.Keys == auth.workers.Keys
            && forall id :: id in auth.workers ==>
                 && SameButTelemetry(v.seenWorkers[id].0, auth.workers[id].resources)
                 && v.seenWorkers[id].1 ==
                    WorkerSyncState(auth.workers[id].draining, auth.workers[id].connected,
                                    |auth.workers[id].availableCoreIds|, auth.workers[id].allocatedMemory,
                                    auth.workers[id].assignedJobs)
  {
    ObserverHasCache(states);
    var v, auth := Run(states), states[|states| - 1];
    forall id | id in auth.workers ensures Describes(v.seenWorkers[id], auth.workers[id]) {}
    forall id | id in auth.workers ensures SameButTelemetry(v.seenWorkers[id].0, auth.workers[id].resources) {
      MetadataEqExactly(v.seenWorkers[id].0, auth.workers[id].resources);
    }
  }

  /** What of a worker is announced when it changes. */
  ghost predicate SameToObservers(a: WorkerHandle, b: WorkerHandle) {
    && SameButTelemetry(a.resources, b.resources)
    && a.draining == b.draining && a.connected == b.connected && |a.availableCoreIds| == |b.availableCoreIds|
    && a.allocatedMemory == b.allocatedMemory && a.assignedJobs == b.assignedJobs
  }

  /** Between two syncs of a run a worker event is sent exactly when a worker came
      or went, or one changed in more than its telemetry. */
  lemma NodesEventExactly(states: seq<Authority>, auth: Authority)
    requires states != []
    ensures var last := states[|states| - 1];
            NodesEvent(Run(states), auth) <==>
            last.workers.Keys != auth.workers.Keys
            || exists id :: id in auth.workers && id in last.workers && !SameToObservers(last.workers[id], auth.workers[id])
  {
    CacheDescribes(states);
    ChangedExactly(Run(states).cache, states[|states| - 1].workers, auth.workers);
  }

  lemma CacheDescribes(states: seq<Authority>)
    requires states != []
    ensures var cache, workers := Run(states).cache, states[|states| - 1].workers;
            cache.Keys == workers.Keys && forall id :: id in workers ==> Describes(cache[id], workers[id])
  {
  }

  lemma DescribedAlike(entry: (Resources, WorkerSyncState), a: WorkerHandle, b: WorkerHandle)
    requires Describes(entry, a)
    ensures Describes(entry, b) <==> SameToObservers(a, b)
  {
    MetadataEqExactly(entry.0, a.resources);
    MetadataEqExactly(entry.0, b.resources);
  }

  lemma ChangedExactly(cache: WorkerCache, last: map<string, WorkerHandle>, now: map<string, WorkerHandle>)
    requires cache.Keys == last.Keys && forall id :: id in last ==> Describes(cache[id], last[id])
    ensures SyncedWorkers(cache, now) != cache <==>
            last.Keys != now.Keys || exists id :: id in now && id in last && !SameToObservers(last[id], now[id])
  {
    var synced := SyncedWorkers(cache, now);
    forall id | id in last && id in now ensures synced[id] == cache[id] <==> SameToObservers(last[id], now[id]) {
      DescribedAlike(cache[id], last[id], now[id]);
      FreshDescribes(now[id]);
    }
    assert synced.Keys == now.Keys;
  }

  lemma FreshDescribes(w: WorkerHandle)
    ensures Describes((w.resources, SyncStateOf(w)), w)
  {
  }

  /** A job event is sent exactly when the job table changed, or some job carries a
      not-a-number. */
  lemma JobsEventExactly(states: seq<Authority>, auth: Authority)
    requires states != []
    ensures JobsEvent(Run(states), auth) <==>
            states[|states| - 1].jobs != auth.jobs
            || exists id, i :: id in auth.jobs && 0 <= i < |auth.jobs[id].floats| && auth.jobs[id].floats[i] == NaN
  {
  }

  /** Syncing the same state again changes neither cache nor copies; it sends no
      worker event, and a job event exactly when some job carries a not-a-number. */
  lemma RepeatedSync(states: seq<Authority>, auth: Authority)
    ensures var v := Run(states + [auth]);
            && !NodesEvent(v, auth) && (JobsEvent(v, auth) <==> AnyNaN(auth.jobs))
            && Run(states + [auth, auth]) == v
  {
    var one := states + [auth];
    assert one[..|states|] == states;
    var two := states + [auth, auth];
    assert two[..|one|] == one;
    ObserverHasCache(one);
    var v := Run(one);
    forall id | id in auth.workers ensures Describes(v.cache[id], auth.workers[id]) {}
    assert SyncedWorkers(v.cache, auth.workers) == v.cache;
  }
}
