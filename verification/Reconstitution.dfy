/** Start-up: disconnected worker handles are put together from the persisted
    job table, before any worker has connected. */
module Reconstitution {
  import opened Common
  import opened JobStatusText
  import opened Allocations

  const MAX_U64 := TWO_64 - 1

  datatype Handle = Handle(assignedJobs: set<JobId>, allocatedMemory: nat)

  function Get(handles: map<WorkerId, Handle>, w: WorkerId): Handle {
    if w in handles then handles[w] else Handle({}, 0)
  }

  function SaturatingAdd(a: nat, b: nat): nat {
    if a + b <= MAX_U64 then a + b else MAX_U64
  }

  /** How often a worker occurs in a job's list. */
  function Occurrences(ws: seq<WorkerId>, w: WorkerId): nat {
    if ws == [] then 0 else Occurrences(ws[..|ws| - 1], w) + (if ws[|ws| - 1] == w then 1 else 0)
  }

  lemma {:induction false} OccursOnce(ws: seq<WorkerId>, w: WorkerId)
    ensures w in ws <==> Occurrences(ws, w) > 0
    ensures Distinct(ws) ==> Occurrences(ws, w) <= 1
  {
    if ws != [] {
      var n := |ws| - 1;
      OccursOnce(ws[..n], w);
      assert ws == ws[..n] + [ws[n]];
    }
  }

  /** The job table with every job's memory counted once per occurrence of `w`. */
  ghost function Weighted(jobs: map<JobId, Job>, w: WorkerId): map<JobId, Job> {
    map id | id in jobs :: jobs[id].(reqMemory := jobs[id].reqMemory * Occurrences(jobs[id].assignedWorkers, w))
  }

  ghost function Counted(jobs: map<JobId, Job>, w: WorkerId): nat {
    Memory(Weighted(jobs, w), Hosted(jobs, w))
  }

  /** What start-up says about worker `w`, given the jobs seen. */
  ghost predicate HandleIs(jobs: map<JobId, Job>, handles: map<WorkerId, Handle>, w: WorkerId) {
    && (w in handles <==> Hosted(jobs, w) != {})
    && Get(handles, w) == Handle(Hosted(jobs, w), SaturatingAdd(0, Counted(jobs, w)))
  }

  /** Worker `v` after the first workers of a job have been visited. */
  ghost predicate Visited(before: map<WorkerId, Handle>, after: map<WorkerId, Handle>, id: JobId, mem: nat,
                          seen: seq<WorkerId>, v: WorkerId)
  {
    var h := Get(before, v);
    && (v in after <==> v in before || v in seen)
    && Get(after, v) == if v in seen
                        then Handle(h.assignedJobs + {id}, SaturatingAdd(h.allocatedMemory, mem * Occurrences(seen, v)))
                        else h
  }

  method VisitWorkers(before: map<WorkerId, Handle>, id: JobId, job: Job) returns (handles: map<WorkerId, Handle>)
    ensures forall v :: Visited(before, handles, id, job.reqMemory, job.assignedWorkers, v)
  {
    handles := before;
    var ws := job.assignedWorkers;
    for k := 0 to |ws|
      invariant forall v :: Visited(before, handles, id, job.reqMemory, ws[..k], v)
    {
      var w := ws[k];
      ghost var prev, next := handles, ws[..k + 1];
      assert next == ws[..k] + [w];
      var h := Get(handles, w);
      handles := handles[w := Handle(h.assignedJobs + {id}, SaturatingAdd(h.allocatedMemory, job.reqMemory))];
      forall v ensures Visited(before, handles, id, job.reqMemory, next, v) {
        assert Visited(before, prev, id, job.reqMemory, ws[..k], v);
        VisitedNext(before, prev, handles, id, job.reqMemory, ws[..k], w, v);
      }
    }
    assert ws[..|ws|] == ws;
  }

  lemma VisitedNext(before: map<WorkerId, Handle>, prev: map<WorkerId, Handle>, after: map<WorkerId, Handle>,
                    id: JobId, mem: nat, seen: seq<WorkerId>, w: WorkerId, v: WorkerId)
    requires Visited(before, prev, id, mem, seen, v)
    requires var h := Get(prev, w);
             after == prev[w := Handle(h.assignedJobs + {id}, SaturatingAdd(h.allocatedMemory, mem))]
    ensures Visited(before, after, id, mem, seen + [w], v)
  {
    var next := seen + [w];
    assert next[..|next| - 1] == seen;
    OccursOnce(seen, v);
    if v == w {
      assert mem * (Occurrences(seen, v) + 1) == mem * Occurrences(seen, v) + mem;
    }
  }

  lemma CountedAdds(jobs: map<JobId, Job>, id: JobId, w: WorkerId)
    requires id in jobs && RunsOn(jobs[id], w)
    ensures Hosted(jobs, w) == Hosted(jobs - {id}, w) + {id}
    ensures Counted(jobs, w) ==
            Counted(jobs - {id}, w) + jobs[id].reqMemory * Occurrences(jobs[id].assignedWorkers, w)
  {
    var rest := jobs - {id};
    assert Hosted(jobs, w) - {id} == Hosted(rest, w);
    assert Hosted(jobs, w) == Hosted(rest, w) + {id};
    MemoryRemove(Weighted(jobs, w), Hosted(jobs, w), id);
    MemorySame(Weighted(jobs, w), Weighted(rest, w), Hosted(rest, w));
  }

  lemma CountedIgnores(jobs: map<JobId, Job>, id: JobId, w: WorkerId)
    requires id in jobs && !RunsOn(jobs[id], w)
    ensures Hosted(jobs, w) == Hosted(jobs - {id}, w) && Counted(jobs, w) == Counted(jobs - {id}, w)
  {
    var rest := jobs - {id};
    assert Hosted(jobs, w) == Hosted(rest, w);
    MemorySame(Weighted(jobs, w), Weighted(rest, w), Hosted(rest, w));
  }

  lemma HandleNext(jobs: map<JobId, Job>, id: JobId, before: map<WorkerId, Handle>, after: map<WorkerId, Handle>, w: WorkerId)
    requires id in jobs && HandleIs(jobs - {id}, before, w)
    requires if jobs[id].status == Running
             then Visited(before, after, id, jobs[id].reqMemory, jobs[id].assignedWorkers, w) else after == before
    ensures HandleIs(jobs, after, w)
  {
    if RunsOn(jobs[id], w) { CountedAdds(jobs, id, w); } else { CountedIgnores(jobs, id, w); }
  }

  /** Builds the handles, visiting the job table in an arbitrary order. */
  method Reconstitute(jobs: map<JobId, Job>) returns (handles: map<WorkerId, Handle>)
    ensures forall w :: HandleIs(jobs, handles, w)
  {
    handles := map[];
    var todo := jobs.Keys;
    ghost var seen: set<JobId> := {};
    forall w ensures HandleIs(Upto(jobs, {}), handles, w) { assert Hosted(Upto(jobs, {}), w) == {}; }
    while todo != {}
      invariant todo <= jobs.Keys && seen == jobs.Keys - todo
      invariant forall w :: HandleIs(Upto(jobs, seen), handles, w)
      decreases |todo|
    {
      var id :| id in todo;
      ghost var prev, next := handles, Upto(jobs, seen + {id});
      if jobs[id].status == Running {
        handles := VisitWorkers(handles, id, jobs[id]);
      }
      UptoNext(jobs, seen, id);
      forall w ensures HandleIs(next, handles, w) {
        assert HandleIs(Upto(jobs, seen), prev, w);
        HandleNext(next, id, prev, handles, w);
      }
      todo, seen := todo - {id}, seen + {id};
    }
    assert seen == jobs.Keys && Upto(jobs, jobs.Keys) == jobs;
  }

  ghost predicate NoRepeats(jobs: map<JobId, Job>) {
    forall id :: id in jobs ==> Distinct(jobs[id].assignedWorkers)
  }

  lemma CountedIsMemory(jobs: map<JobId, Job>, w: WorkerId)
    requires NoRepeats(jobs)
    ensures Counted(jobs, w) == Memory(jobs, Hosted(jobs, w))
  {
    forall id | id in Hosted(jobs, w) ensures Weighted(jobs, w)[id].reqMemory == jobs[id].reqMemory {
      OccursOnce(jobs[id].assignedWorkers, w);
      assert Occurrences(jobs[id].assignedWorkers, w) == 1;
    }
    MemorySame(Weighted(jobs, w), jobs, Hosted(jobs, w));
  }

  /** Start-up and rebuilding agree on the assigned jobs of every worker; without
      repeated workers they agree on its memory exactly when the sum fits 64 bits
      (one wraps, the other saturates), or wraps onto the maximum. */
  lemma StartUpAgrees(jobs: map<JobId, Job>, handles: map<WorkerId, Handle>, w: WorkerId, res: Hardware)
    requires HandleIs(jobs, handles, w) && NoRepeats(jobs)
    ensures Get(handles, w).assignedJobs == Rebuilt(w, res, jobs).assignedJobs
    ensures var sum := Memory(jobs, Hosted(jobs, w));
            Get(handles, w).allocatedMemory == Rebuilt(w, res, jobs).allocatedMemory
            <==> sum < TWO_64 || sum % TWO_64 == MAX_U64
  {
    CountedIsMemory(jobs, w);
  }
}
