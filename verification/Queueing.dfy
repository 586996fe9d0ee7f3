/** The queue of pending jobs: which unfinished jobs a scheduling pass can still
    find, and which it loses. */
module Queueing {
  import opened Common
  import opened JobStatusText
  import opened Allocations
  import opened Controller

  datatype State = State(jobs: map<JobId, Job>, queue: seq<JobId>)

  /** What the pass does with a pending job: leave it, start it, or start it after
      preempting others. Which, and on which workers, is not decided here. */
  datatype Choice =
    | Keep
    | Start(selected: seq<WorkerId>, cores: map<WorkerId, seq<nat>>, gres: map<WorkerId, Gres>)
    | StartEvicting(victims: set<JobId>, selected: seq<WorkerId>, cores: map<WorkerId, seq<nat>>, gres: map<WorkerId, Gres>)

  /** The job table and the jobs that stay pending, in the middle of a pass. */
  datatype Progress = Progress(jobs: map<JobId, Job>, still: seq<JobId>)

  ghost function Visit(p: Progress, id: JobId, choice: Choice, now: nat): Progress {
    if id !in p.jobs || p.jobs[id].status != Pending then p
    else
      var job := p.jobs[id];
      match choice
      case Keep => p.(still := p.still + [id])
      case Start(ws, cores, gres) => p.(jobs := p.jobs[id := StartedJob(job, ws, cores, gres, now)])
      case StartEvicting(vs, ws, cores, gres) =>
        p.(jobs := Evicted(p.jobs, vs)[id := StartedJob(job, ws, cores, gres, now)])
  }

  /** After the first `k` jobs of the pass. */
  ghost function Visited(jobs: map<JobId, Job>, order: seq<JobId>, choices: seq<Choice>, now: nat, k: nat): Progress
    requires k <= |order| == |choices|
  {
    if k == 0 then Progress(jobs, [])
    else Visit(Visited(jobs, order, choices, now, k - 1), order[k - 1], choices[k - 1], now)
  }

  ghost function AfterPass(s: State, order: seq<JobId>, choices: seq<Choice>, now: nat): State
    requires |order| == |choices|
  {
    var p := Visited(s.jobs, order, choices, now, |order|);
    State(p.jobs, p.still)
  }

  class Scheduler {
    var jobs: map<JobId, Job>
    var queue: seq<JobId>

    ghost function View(): State
      reads this
    {
      State(jobs, queue)
    }

    constructor ()
      ensures View() == State(map[], [])
    {
      jobs, queue := map[], [];
    }

    method Submit(job: Job)
      modifies this
      ensures View() == Step(old(View()), Submitted(job))
    {
      jobs := jobs[job.id := job];
      queue := queue + [job.id];
    }

    /** What preempting does to the table and the queue. */
    method PreemptJob(id: JobId)
      modifies this
      ensures if id in old(jobs) && old(jobs)[id].status == Running
              then jobs == old(jobs)[id := PreemptedJob(old(jobs)[id])] && id in queue
                   && queue == (if id in old(queue) then old(queue) else old(queue) + [id])
              else View() == old(View())
    {
      if id in jobs && jobs[id].status == Running {
        jobs := jobs[id := PreemptedJob(jobs[id])];
        if id !in queue { queue := queue + [id]; }
      }
    }

    method Evict(victims: set<JobId>)
      modifies this
      ensures jobs == Evicted(old(jobs), victims)
    {
      var todo := victims;
      ghost var seen: set<JobId> := {};
      assert Evicted(jobs, {}) == jobs;
      while todo != {}
        invariant todo <= victims && seen == victims - todo
        invariant jobs == Evicted(old(jobs), seen)
        decreases |todo|
      {
        var id :| id in todo;
        EvictedNext(old(jobs), seen, id);
        PreemptJob(id);
        todo, seen := todo - {id}, seen + {id};
      }
      assert seen == victims;
    }

    /** One pass: the queue is drained, its jobs are visited in the order of their
        priorities, and in the end the queue becomes the jobs that stay pending.
        Preempted jobs are queued in between. */
    method SchedulePass(order: seq<JobId>, choices: seq<Choice>, now: nat)
      requires multiset(order) == multiset(queue) && |choices| == |order|
      modifies this
      ensures View() == AfterPass(old(View()), order, choices, now)
    {
      queue := [];
      var still: seq<JobId> := [];
      for k := 0 to |order|
        invariant Progress(jobs, still) == Visited(old(jobs), order, choices, now, k)
      {
        var id := order[k];
        if id in jobs && jobs[id].status == Pending {
          var job := jobs[id];
          match choices[k] {
            case Keep =>
              still := still + [id];
            case Start(ws, cores, gres) =>
              jobs := jobs[id := StartedJob(job, ws, cores, gres, now)];
            case StartEvicting(vs, ws, cores, gres) =>
              Evict(vs);
              jobs := jobs[id := StartedJob(job, ws, cores, gres, now)];
          }
        }
      }
      queue := still;
    }
  }

  // ----- which jobs are accounted for -----

  /** A pending job is queued, and a running one runs somewhere. */
  ghost predicate Accounted(s: State, id: JobId) {
    id in s.jobs ==>
      && (s.jobs[id].status == Pending ==> id in s.queue)
      && (s.jobs[id].status == Running ==> s.jobs[id].assignedWorkers != [])
  }

  ghost predicate AllAccounted(s: State) {
    forall id :: Accounted(s, id)
  }

  /** Visit `i` of the pass preempts `v`. */
  ghost predicate EvictedAt(jobs: map<JobId, Job>, order: seq<JobId>, choices: seq<Choice>, now: nat, i: nat, v: JobId)
    requires |order| == |choices|
  {
    && i < |order| && choices[i].StartEvicting? && v in choices[i].victims
    && var p := Visited(jobs, order, choices, now, i);
       && order[i] in p.jobs && p.jobs[order[i]].status == Pending
       && v in p.jobs && p.jobs[v].status == Running
  }

  ghost predicate VisitedLater(order: seq<JobId>, k: nat, v: JobId) {
    exists j :: k <= j < |order| && order[j] == v
  }

  /** Visit `i` preempts `v`, which does not come up again and is not among the
      jobs that stay pending. */
  ghost predicate ForgottenAt(jobs: map<JobId, Job>, order: seq<JobId>, choices: seq<Choice>, now: nat, i: nat, v: JobId)
    requires |order| == |choices|
  {
    && EvictedAt(jobs, order, choices, now, i, v) && !VisitedLater(order, i + 1, v)
    && v !in Visited(jobs, order, choices, now, i).still
  }

  ghost predicate ForgottenBefore(jobs: map<JobId, Job>, order: seq<JobId>, choices: seq<Choice>, now: nat, k: nat, v: JobId)
    requires |order| == |choices|
  {
    exists i: nat :: i < k && ForgottenAt(jobs, order, choices, now, i, v)
  }

  ghost predicate StartsSomewhere(choices: seq<Choice>) {
    forall i :: 0 <= i < |choices| && !choices[i].Keep? ==> choices[i].selected != []
  }

  /** Where job `v` stands in the middle of a pass. */
  ghost predicate Standing(jobs: map<JobId, Job>, order: seq<JobId>, choices: seq<Choice>, now: nat, k: nat, v: JobId)
    requires k <= |order| == |choices|
  {
    var p, forgotten := Visited(jobs, order, choices, now, k), ForgottenBefore(jobs, order, choices, now, k, v);
    && (v in p.jobs && p.jobs[v].status == Running ==> p.jobs[v].assignedWorkers != [])
    && (v in p.jobs && p.jobs[v].status == Pending ==> v in p.still || VisitedLater(order, k, v) || forgotten)
    && (forgotten ==> v in p.jobs && p.jobs[v].status == Pending && v !in p.still && !VisitedLater(order, k, v))
  }

  lemma LaterNext(order: seq<JobId>, k: nat, v: JobId)
    requires k < |order|
    ensures VisitedLater(order, k, v) <==> order[k] == v || VisitedLater(order, k + 1, v)
  {
  }

  lemma ForgottenNext(jobs: map<JobId, Job>, order: seq<JobId>, choices: seq<Choice>, now: nat, k: nat, v: JobId)
    requires |order| == |choices|
    ensures ForgottenBefore(jobs, order, choices, now, k + 1, v) <==>
            ForgottenBefore(jobs, order, choices, now, k, v) || ForgottenAt(jobs, order, choices, now, k, v)
  {
    if i: nat :| i < k && ForgottenAt(jobs, order, choices, now, i, v) { assert i < k + 1; }
    if ForgottenAt(jobs, order, choices, now, k, v) { assert k < k + 1; }
  }

  lemma StandingNext(jobs: map<JobId, Job>, order: seq<JobId>, choices: seq<Choice>, now: nat, k: nat, v: JobId)
    requires k < |order| == |choices| && StartsSomewhere(choices)
    requires Standing(jobs, order, choices, now, k, v)
    ensures Standing(jobs, order, choices, now, k + 1, v)
  {
    LaterNext(order, k, v);
    ForgottenNext(jobs, order, choices, now, k, v);
  }

  lemma {:induction false} StandingAt(s: State, order: seq<JobId>, choices: seq<Choice>, now: nat, k: nat, v: JobId)
    requires k <= |order| == |choices| && StartsSomewhere(choices) && multiset(order) == multiset(s.queue)
    requires Accounted(s, v)
    ensures Standing(s.jobs, order, choices, now, k, v)
  {
    if k > 0 {
      StandingAt(s, order, choices, now, k - 1, v);
      StandingNext(s.jobs, order, choices, now, k - 1, v);
    } else if v in s.queue {
      assert v in multiset(order);
      var j :| 0 <= j < |order| && order[j] == v;
      assert VisitedLater(order, 0, v);
    }
  }

  /** After a pass a job that was accounted for is so no longer exactly when the
      pass preempted it and did not come to it again. */
  lemma PassForgetsExactly(s: State, order: seq<JobId>, choices: seq<Choice>, now: nat, v: JobId)
    requires |order| == |choices| && StartsSomewhere(choices) && multiset(order) == multiset(s.queue)
    requires Accounted(s, v)
    ensures !Accounted(AfterPass(s, order, choices, now), v) <==>
            ForgottenBefore(s.jobs, order, choices, now, |order|, v)
  {
    StandingAt(s, order, choices, now, |order|, v);
  }

  /** Visit `i` finds its job pending and leaves it so. */
  ghost predicate KeptAt(jobs: map<JobId, Job>, order: seq<JobId>, choices: seq<Choice>, now: nat, i: nat, id: JobId)
    requires |order| == |choices|
  {
    && i < |order| && order[i] == id && choices[i].Keep?
    && var p := Visited(jobs, order, choices, now, i); id in p.jobs && p.jobs[id].status == Pending
  }

  ghost predicate KeptBefore(jobs: map<JobId, Job>, order: seq<JobId>, choices: seq<Choice>, now: nat, k: nat, id: JobId)
    requires |order| == |choices|
  {
    exists i: nat :: i < k && KeptAt(jobs, order, choices, now, i, id)
  }

  /** A job is in the queue after a pass exactly when the pass found it pending and
      left it so; jobs that are gone or not pending drop out. */
  lemma {:induction false} QueuedExactly(jobs: map<JobId, Job>, order: seq<JobId>, choices: seq<Choice>, now: nat, k: nat, id: JobId)
    requires k <= |order| == |choices|
    ensures id in Visited(jobs, order, choices, now, k).still <==> KeptBefore(jobs, order, choices, now, k, id)
  {
    if k > 0 {
      QueuedExactly(jobs, order, choices, now, k - 1, id);
      KeptNext(jobs, order, choices, now, k - 1, id);
    }
  }

  lemma KeptNext(jobs: map<JobId, Job>, order: seq<JobId>, choices: seq<Choice>, now: nat, k: nat, id: JobId)
    requires |order| == |choices|
    ensures KeptBefore(jobs, order, choices, now, k + 1, id) <==>
            KeptBefore(jobs, order, choices, now, k, id) || KeptAt(jobs, order, choices, now, k, id)
  {
    if i: nat :| i < k && KeptAt(jobs, order, choices, now, i, id) { assert i < k + 1; }
    if KeptAt(jobs, order, choices, now, k, id) { assert k < k + 1; }
  }

  // ----- whole runs -----

  datatype Event =
    | Submitted(job: Job)
    | Reported(id: JobId)
    | Finished(id: JobId, status: JobStatus)
    | Removed(id: JobId)
    | Pass(order: seq<JobId>, choices: seq<Choice>, now: nat)

  ghost predicate WellFormed(s: State, e: Event) {
    match e
    case Finished(_, status) => status != Pending && status != Running
    case Pass(order, choices, _) =>
      multiset(order) == multiset(s.queue) && |choices| == |order| && StartsSomewhere(choices)
    case _ => true
  }

  ghost function Step(s: State, e: Event): State {
    match e
    case Submitted(job) => State(s.jobs[job.id := job], s.queue + [job.id])
    case Reported(id) => if id in s.jobs then s.(jobs := MarkedRunning(s.jobs, id)) else s
    case Finished(id, status) => if id in s.jobs then s.(jobs := s.jobs[id := s.jobs[id].(status := status)]) else s
    case Removed(id) => s.(jobs := s.jobs - {id})
    case Pass(order, choices, now) => if |order| == |choices| then AfterPass(s, order, choices, now) else s
  }

  /** The event loses a job: a report that a job without workers has started, a
      running job submitted without workers, or a pass that preempts a job and does
      not come to it again. */
  ghost predicate Loses(s: State, e: Event) {
    match e
    case Submitted(job) => job.status == Running && job.assignedWorkers == []
    case Reported(id) => id in s.jobs && s.jobs[id].assignedWorkers == []
    case Pass(order, choices, now) =>
      |order| == |choices| && exists v :: ForgottenBefore(s.jobs, order, choices, now, |order|, v)
    case _ => false
  }

  /** From a state in which every unfinished job is accounted for, exactly the
      events that lose a job lead to one in which that is not so. */
  lemma StepAccountsExactly(s: State, e: Event)
    requires AllAccounted(s) && WellFormed(s, e)
    ensures AllAccounted(Step(s, e)) <==> !Loses(s, e)
  {
    match e
    case Pass(order, choices, now) =>
      forall v ensures !Accounted(Step(s, e), v) <==> ForgottenBefore(s.jobs, order, choices, now, |order|, v) {
        assert Accounted(s, v);
        PassForgetsExactly(s, order, choices, now, v);
      }
    case Submitted(job) =>
      forall id | id != job.id ensures Accounted(Step(s, e), id) { assert Accounted(s, id); }
      assert Accounted(Step(s, e), job.id) <==> !Loses(s, e);
    case Reported(id) =>
      forall j | j != id ensures Accounted(Step(s, e), j) { assert Accounted(s, j); }
      assert Accounted(Step(s, e), id) <==> !Loses(s, e);
    case Finished(id, status) =>
      forall j ensures Accounted(Step(s, e), j) { assert Accounted(s, j); }
    case Removed(id) =>
      forall j ensures Accounted(Step(s, e), j) { assert Accounted(s, j); }
  }

  ghost predicate Next(s: State, e: Event, s': State) {
    WellFormed(s, e) && s' == Step(s, e)
  }

  /** Every state of a run, one more than there are events. */
  ghost predicate IsRun(events: seq<Event>, states: seq<State>) {
    && |states| == |events| + 1 && states[0] == State(map[], [])
    && forall k :: 0 <= k < |events| ==> Next(states[k], events[k], states[k + 1])
  }

  lemma {:induction false} AccountedUpTo(events: seq<Event>, states: seq<State>, k: nat)
    requires IsRun(events, states) && k <= |events|
    requires forall i :: 0 <= i < k ==> !Loses(states[i], events[i])
    ensures AllAccounted(states[k])
  {
    if k > 0 {
      AccountedUpTo(events, states, k - 1);
      AccountsNext(states[k - 1], events[k - 1], states[k]);
    }
  }

  lemma AccountsNext(s: State, e: Event, s': State)
    requires AllAccounted(s) && Next(s, e, s')
    ensures AllAccounted(s') <==> !Loses(s, e)
  {
    StepAccountsExactly(s, e);
  }

  /** On every run every unfinished job is queued or runs somewhere, at all times,
      exactly when no event of the run loses a job. */
  lemma AccountedExactly(events: seq<Event>, states: seq<State>)
    requires IsRun(events, states)
    ensures (forall k :: 0 <= k <= |events| ==> AllAccounted(states[k])) <==>
            forall k :: 0 <= k < |events| ==> !Loses(states[k], events[k])
  {
    if forall k :: 0 <= k < |events| ==> !Loses(states[k], events[k]) {
      forall k | 0 <= k <= |events| ensures AllAccounted(states[k]) { AccountedUpTo(events, states, k); }
    }
    if forall k :: 0 <= k <= |events| ==> AllAccounted(states[k]) {
      forall k | 0 <= k < |events| ensures !Loses(states[k], events[k]) {
        assert AllAccounted(states[k + 1]);
        AccountsNext(states[k], events[k], states[k + 1]);
      }
    }
  }

  // ----- how jobs are lost, and for how long -----

  /** Any pass that starts its only job by preempting one that is not queued loses
      that one: it is pending, and the queue does not have it. */
  lemma EvictionForgets(s: State, u: JobId, v: JobId, choice: Choice, now: nat)
    requires s.queue == [u] && u in s.jobs && s.jobs[u].status == Pending
    requires v in s.jobs && s.jobs[v].status == Running && choice.StartEvicting? && v in choice.victims
    ensures var s' := AfterPass(s, [u], [choice], now);
            s'.queue == [] && v in s'.jobs && s'.jobs[v] == PreemptedJob(s.jobs[v])
  {
    var order, choices := [u], [choice];
    assert Visited(s.jobs, order, choices, now, 0) == Progress(s.jobs, []);
    assert Visited(s.jobs, order, choices, now, 1) == Visit(Progress(s.jobs, []), u, choice, now);
  }

  ghost predicate Lost(s: State, id: JobId) {
    id in s.jobs && s.jobs[id].status == Pending && id !in s.queue
  }

  /** The event is about another job, or a pass. */
  ghost predicate NotAbout(e: Event, id: JobId) {
    match e
    case Submitted(job) => job.id != id
    case Reported(j) => j != id
    case Finished(j, _) => j != id
    case Removed(j) => j != id
    case Pass(_, _, _) => true
  }

  lemma {:induction false} PassSkips(jobs: map<JobId, Job>, order: seq<JobId>, choices: seq<Choice>, now: nat, k: nat, id: JobId)
    requires k <= |order| == |choices| && id in jobs && jobs[id].status == Pending && id !in order
    ensures var p := Visited(jobs, order, choices, now, k);
            id in p.jobs && p.jobs[id].status == Pending && id !in p.still
  {
    if k > 0 {
      PassSkips(jobs, order, choices, now, k - 1, id);
      assert order[k - 1] in order;
    }
  }

  /** No number of passes finds a lost job again. */
  lemma LostStaysLost(s: State, e: Event, id: JobId)
    requires Lost(s, id) && WellFormed(s, e) && NotAbout(e, id)
    ensures Lost(Step(s, e), id)
  {
    if e.Pass? {
      assert id !in e.order by {
        assert id !in multiset(s.queue);
        assert id !in multiset(e.order);
      }
      PassSkips(s.jobs, e.order, e.choices, e.now, |e.order|, id);
    }
  }

  /** The same over any number of events. */
  lemma {:induction false} LostForGood(events: seq<Event>, states: seq<State>, i: nat, k: nat, id: JobId)
    requires IsRun(events, states) && i <= k <= |events| && Lost(states[i], id)
    requires forall m :: i <= m < k ==> NotAbout(events[m], id)
    ensures Lost(states[k], id)
    decreases k
  {
    if i < k {
      LostForGood(events, states, i, k - 1, id);
      LostNext(states[k - 1], events[k - 1], states[k], id);
    }
  }

  lemma LostNext(s: State, e: Event, s': State, id: JobId)
    requires Lost(s, id) && Next(s, e, s') && NotAbout(e, id)
    ensures Lost(s', id)
  {
    LostStaysLost(s, e, id);
  }

  /** A late report makes a pending job without workers running; the next pass, as
      long as it does not preempt the job, takes it from the queue and starts it
      nowhere. */
  lemma {:induction false} ReportedIsDropped(jobs: map<JobId, Job>, order: seq<JobId>, choices: seq<Choice>, now: nat, k: nat, id: JobId)
    requires k <= |order| == |choices| && id in jobs
    requires forall i :: 0 <= i < |choices| && choices[i].StartEvicting? ==> id !in choices[i].victims
    ensures var p := Visited(MarkedRunning(jobs, id), order, choices, now, k);
            id in p.jobs && p.jobs[id] == jobs[id].(status := Running) && id !in p.still
  {
    if k > 0 { ReportedIsDropped(jobs, order, choices, now, k - 1, id); }
  }
}
