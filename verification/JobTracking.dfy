/** Which workers of a multi-node job have reported completion. */
module JobTracking {
  import opened Common
  import opened WorkerLogs

  datatype Tracking = Tracking(
    dispatched: map<JobId, seq<string>>,
    logs: map<JobId, LogMap>,
    done: map<JobId, set<string>>)

  datatype Event =
    | Dispatch(job: JobId, workers: seq<string>)
    | LogFiles(job: JobId, worker: string, files: WorkerLogFiles)
    | Done(job: JobId, worker: string)
    | Cleanup(job: JobId)

  function Get<T>(m: map<JobId, T>, k: JobId, default: T): T {
    if k in m then m[k] else default
  }

  /** The tracking tables after one event. */
  function Apply(t: Tracking, e: Event): Tracking {
    match e
    case Dispatch(j, ws) => t.(dispatched := t.dispatched[j := ws])
    case LogFiles(j, w, f) => t.(logs := t.logs[j := Get(t.logs, j, map[])[w := f]])
    case Done(j, w) => t.(done := t.done[j := Get(t.done, j, {}) + {w}])
    case Cleanup(j) => Tracking(t.dispatched - {j}, t.logs - {j}, t.done - {j})
  }

  class MultinodeJobTracking {
    var dispatchedWorkers: map<JobId, seq<string>>
    var workerLogFiles: map<JobId, LogMap>
    var doneWorkers: map<JobId, set<string>>

    ghost function View(): Tracking
      reads this
    {
      Tracking(dispatchedWorkers, workerLogFiles, doneWorkers)
    }

    constructor ()
      ensures View() == Tracking(map[], map[], map[])
    {
      dispatchedWorkers, workerLogFiles, doneWorkers := map[], map[], map[];
    }

    method RecordDispatchedWorkers(job: JobId, workers: seq<string>)
      modifies this
      ensures View() == Apply(old(View()), Dispatch(job, workers))
    {
      dispatchedWorkers := dispatchedWorkers[job := workers];
    }

    method RecordWorkerLogFiles(job: JobId, worker: string, files: WorkerLogFiles)
      modifies this
      ensures View() == Apply(old(View()), LogFiles(job, worker, files))
    {
      if job !in workerLogFiles {
        workerLogFiles := workerLogFiles[job := map[]];
      }
      workerLogFiles := workerLogFiles[job := workerLogFiles[job][worker := files]];
    }

    /** The number of workers that have reported so far, this one included. */
    method MarkWorkerDone(job: JobId, worker: string) returns (count: nat)
      modifies this
      ensures View() == Apply(old(View()), Done(job, worker))
      ensures count == |Get(View().done, job, {})|
    {
      if job !in doneWorkers {
        doneWorkers := doneWorkers[job := {}];
      }
      doneWorkers := doneWorkers[job := doneWorkers[job] + {worker}];
      count := |doneWorkers[job]|;
    }

    method CleanupJobTracking(job: JobId)
      modifies this
      ensures View() == Apply(old(View()), Cleanup(job))
    {
      dispatchedWorkers := dispatchedWorkers - {job};
      workerLogFiles := workerLogFiles - {job};
      doneWorkers := doneWorkers - {job};
    }

    /** How many reports to wait for; without a dispatch list, the assigned
        workers count, and at least one is expected. */
    method ExpectedDoneWorkers(job: JobId, assignees: seq<string>) returns (n: nat)
      ensures n == Expected(View(), job, assignees)
    {
      if job in dispatchedWorkers {
        n := |dispatchedWorkers[job]|;
      } else {
        n := if |assignees| >= 1 then |assignees| else 1;
      }
    }
  }

  function Expected(t: Tracking, job: JobId, assignees: seq<string>): nat {
    if job in t.dispatched then |t.dispatched[job]| else if assignees == [] then 1 else |assignees|
  }

  function Run(events: seq<Event>): Tracking {
    if events == [] then Tracking(map[], map[], map[])
    else Apply(Run(events[..|events| - 1]), events[|events| - 1])
  }

  /** Event `i` concerns the present life of the job: no cleanup came after it. */
  ghost predicate Live(events: seq<Event>, job: JobId, i: nat) {
    forall k :: i < k < |events| ==> events[k] != Cleanup(job)
  }

  /** A worker counts as done exactly when it reported since the last cleanup,
      whatever else happened to this job and to others. */
  lemma {:induction false} DoneIsReported(events: seq<Event>, job: JobId, w: string)
    ensures w in Get(Run(events).done, job, {}) <==>
            exists i :: 0 <= i < |events| && events[i] == Done(job, w) && Live(events, job, i)
  {
    if events != [] {
      var n := |events| - 1;
      var init, e := events[..n], events[n];
      DoneIsReported(init, job, w);
      if i :| 0 <= i < n && init[i] == Done(job, w) && Live(init, job, i) && e != Cleanup(job) {
        assert events[i] == Done(job, w) && Live(events, job, i);
      }
      if e == Done(job, w) { assert Live(events, job, n); }
      if i :| 0 <= i < |events| && events[i] == Done(job, w) && Live(events, job, i) {
        if i < n { assert init[i] == Done(job, w) && Live(init, job, i); }
      }
    }
  }

  ghost function SetOf(ws: seq<string>): set<string> {
    set w | w in ws
  }

  lemma {:induction false} DistinctSize(ws: seq<string>)
    requires Distinct(ws)
    ensures |SetOf(ws)| == |ws|
  {
    if ws == [] {
      assert SetOf(ws) == {};
    } else {
      DistinctSize(ws[1..]);
      assert SetOf(ws) == {ws[0]} + SetOf(ws[1..]);
    }
  }

  lemma SubsetSize(a: set<string>, b: set<string>)
    requires a <= b
    ensures |a| <= |b| && (|a| == |b| <==> a == b)
  {
    assert b == a + (b - a);
  }

  ghost predicate Reported(events: seq<Event>, job: JobId, w: string) {
    exists i :: 0 <= i < |events| && events[i] == Done(job, w) && Live(events, job, i)
  }

  // ----- what is on file -----

  /** Event `i` is the last dispatch of the job, and no cleanup came after it. */
  ghost predicate LastDispatch(events: seq<Event>, job: JobId, i: nat) {
    && i < |events| && events[i].Dispatch? && events[i].job == job && Live(events, job, i)
    && forall k :: i < k < |events| ==> !(events[k].Dispatch? && events[k].job == job)
  }

  /** The dispatch list on file is the last one since the last cleanup. */
  lemma {:induction false} DispatchOnFile(events: seq<Event>, job: JobId)
    ensures job in Run(events).dispatched <==> exists i: nat :: LastDispatch(events, job, i)
    ensures forall i: nat :: LastDispatch(events, job, i) ==>
              job in Run(events).dispatched && Run(events).dispatched[job] == events[i].workers
  {
    if events != [] {
      var n := |events| - 1;
      var init, e := events[..n], events[n];
      DispatchOnFile(init, job);
      if e.Dispatch? && e.job == job {
        assert LastDispatch(events, job, n);
        assert forall i: nat :: LastDispatch(events, job, i) ==> i == n;
      } else if e == Cleanup(job) {
        assert forall i: nat :: !LastDispatch(events, job, i);
      } else {
        forall i: nat ensures LastDispatch(events, job, i) <==> LastDispatch(init, job, i) {
          LastDispatchEarlier(events, n, job, i);
        }
      }
    }
  }

  lemma LastDispatchEarlier(events: seq<Event>, n: nat, job: JobId, i: nat)
    requires |events| == n + 1 && events[n] != Cleanup(job) && !(events[n].Dispatch? && events[n].job == job)
    ensures LastDispatch(events, job, i) <==> LastDispatch(events[..n], job, i)
  {
    if LastDispatch(events[..n], job, i) {
      forall k | i < k < |events| ensures events[k] != Cleanup(job) && !(events[k].Dispatch? && events[k].job == job) {
        if k < n { assert events[..n][k] == events[k]; }
      }
    }
  }

  /** Event `i` is the worker's last report of log files, and no cleanup came after it. */
  ghost predicate LastLogs(events: seq<Event>, job: JobId, w: string, i: nat) {
    && i < |events| && events[i].LogFiles? && events[i].job == job && events[i].worker == w && Live(events, job, i)
    && forall k :: i < k < |events| ==> !(events[k].LogFiles? && events[k].job == job && events[k].worker == w)
  }

  lemma LastLogsEarlier(events: seq<Event>, n: nat, job: JobId, w: string, i: nat)
    requires |events| == n + 1 && events[n] != Cleanup(job)
    requires !(events[n].LogFiles? && events[n].job == job && events[n].worker == w)
    ensures LastLogs(events, job, w, i) <==> LastLogs(events[..n], job, w, i)
  {
    if LastLogs(events[..n], job, w, i) {
      forall k | i < k < |events|
        ensures events[k] != Cleanup(job) && !(events[k].LogFiles? && events[k].job == job && events[k].worker == w)
      {
        if k < n { assert events[..n][k] == events[k]; }
      }
    }
  }

  /** The log files on file for a worker are those it reported last since the last
      cleanup. */
  lemma {:induction false} LogsOnFile(events: seq<Event>, job: JobId, w: string)
    ensures w in Get(Run(events).logs, job, map[]) <==> exists i: nat :: LastLogs(events, job, w, i)
    ensures forall i: nat :: LastLogs(events, job, w, i) ==>
              w in Get(Run(events).logs, job, map[]) && Get(Run(events).logs, job, map[])[w] == events[i].files
  {
    if events != [] {
      var n := |events| - 1;
      var init, e := events[..n], events[n];
      LogsOnFile(init, job, w);
      if e.LogFiles? && e.job == job && e.worker == w {
        assert LastLogs(events, job, w, n);
        assert forall i: nat :: LastLogs(events, job, w, i) ==> i == n;
      } else if e == Cleanup(job) {
        assert forall i: nat :: !LastLogs(events, job, w, i);
      } else {
        forall i: nat ensures LastLogs(events, job, w, i) <==> LastLogs(init, job, w, i) {
          LastLogsEarlier(events, n, job, w, i);
        }
      }
    }
  }

  /** The workers that have reported since the last cleanup. */
  ghost function ReportedSet(events: seq<Event>, job: JobId): (r: set<string>)
    ensures forall w :: w in r <==> Reported(events, job, w)
  {
    assert forall w :: w in Get(Run(events).done, job, {}) <==> Reported(events, job, w) by {
      forall w ensures w in Get(Run(events).done, job, {}) <==> Reported(events, job, w) {
        DoneIsReported(events, job, w);
      }
    }
    Get(Run(events).done, job, {})
  }

  /** For a job dispatched to distinct workers the count reaches the expected
      number exactly when at least as many others as are missing have reported;
      if only the dispatched workers report, exactly when all of them have. */
  lemma CompleteExactly(events: seq<Event>, job: JobId, ws: seq<string>, assignees: seq<string>)
    requires Get(Run(events).dispatched, job, []) == ws && job in Run(events).dispatched
    requires Distinct(ws)
    ensures |Get(Run(events).done, job, {})| >= Expected(Run(events), job, assignees)
            <==> |SetOf(ws) - ReportedSet(events, job)| <= |ReportedSet(events, job) - SetOf(ws)|
    ensures (forall w :: Reported(events, job, w) ==> w in ws) ==>
              (|Get(Run(events).done, job, {})| == Expected(Run(events), job, assignees)
               <==> forall w :: w in ws ==> Reported(events, job, w))
  {
    var done := Get(Run(events).done, job, {});
    assert done == ReportedSet(events, job);
    DistinctSize(ws);
    Differences(done, SetOf(ws));
    if forall w :: Reported(events, job, w) ==> w in ws {
      assert done <= SetOf(ws);
      SubsetSize(done, SetOf(ws));
    }
  }

  /** Without a dispatch list, as after a restart of the controller, the assigned
      workers are waited for: with distinct ones, and only they reporting, the test
      passes exactly when all of them have reported; with none, at the first report. */
  lemma CompleteWithoutDispatch(events: seq<Event>, job: JobId, assignees: seq<string>)
    requires job !in Run(events).dispatched && Distinct(assignees)
    ensures assignees != [] && (forall w :: Reported(events, job, w) ==> w in assignees) ==>
              (Complete(Run(events), job, assignees) <==> forall w :: w in assignees ==> Reported(events, job, w))
    ensures assignees == [] ==> (Complete(Run(events), job, assignees) <==> exists w :: Reported(events, job, w))
  {
    var done := ReportedSet(events, job);
    assert done == Get(Run(events).done, job, {});
    if assignees == [] {
      if w :| Reported(events, job, w) { SubsetSize({w}, done); }
      if |done| >= 1 { var w :| w in done; assert Reported(events, job, w); }
    } else if forall w :: Reported(events, job, w) ==> w in assignees {
      DistinctSize(assignees);
      assert done <= SetOf(assignees);
      SubsetSize(done, SetOf(assignees));
    }
  }

  lemma Differences(a: set<string>, b: set<string>)
    ensures |a| - |a - b| == |b| - |b - a|
  {
    assert a == (a * b) + (a - b) && b == (a * b) + (b - a);
  }

  /** After cleanup the count starts again from nothing. */
  lemma CleanupRestarts(events: seq<Event>, job: JobId)
    ensures Get(Run(events + [Cleanup(job)]).done, job, {}) == {}
    ensures job !in Run(events + [Cleanup(job)]).dispatched
    ensures Get(Run(events + [Cleanup(job)]).logs, job, map[]) == map[]
  {
    assert (events + [Cleanup(job)])[..|events|] == events;
  }

  // ----- reports from before the present dispatch -----

  /** The test of the completion handler. */
  ghost predicate Complete(t: Tracking, job: JobId, assignees: seq<string>) {
    |Get(t.done, job, {})| >= Expected(t, job, assignees)
  }

  /** The tables after more events. */
  ghost function After(t: Tracking, more: seq<Event>): Tracking {
    if more == [] then t else Apply(After(t, more[..|more| - 1]), more[|more| - 1])
  }

  /** The job is neither dispatched again nor cleaned up; anyone may report.
      Preempting a job is no event here: it leaves the tables alone. */
  ghost predicate SameDispatch(more: seq<Event>, job: JobId) {
    forall i :: 0 <= i < |more| ==>
      match more[i]
      case Dispatch(j, _) => j != job
      case Cleanup(j) => j != job
      case _ => true
  }

  ghost predicate ReportedIn(more: seq<Event>, job: JobId, w: string) {
    exists i :: 0 <= i < |more| && more[i] == Done(job, w)
  }

  lemma {:induction false} DispatchKeeps(t: Tracking, more: seq<Event>, job: JobId, w: string)
    requires SameDispatch(more, job)
    ensures job in After(t, more).dispatched <==> job in t.dispatched
    ensures job in t.dispatched ==> After(t, more).dispatched[job] == t.dispatched[job]
    ensures w in Get(After(t, more).done, job, {}) <==> w in Get(t.done, job, {}) || ReportedIn(more, job, w)
  {
    if more != [] {
      var n := |more| - 1;
      var init := more[..n];
      assert forall i :: 0 <= i < n ==> init[i] == more[i];
      DispatchKeeps(t, init, job, w);
      assert ReportedIn(more, job, w) <==> ReportedIn(init, job, w) || more[n] == Done(job, w);
    }
  }

  ghost predicate AllReported(more: seq<Event>, job: JobId, ws: seq<string>) {
    forall w :: w in ws ==> ReportedIn(more, job, w)
  }

  /** The handler's test says what it is meant to say: that every worker of the
      present dispatch has reported since. */
  ghost predicate TestIsRight(t: Tracking, job: JobId, assignees: seq<string>, more: seq<Event>)
    requires job in t.dispatched
  {
    Complete(After(t, more), job, assignees) <==> AllReported(more, job, t.dispatched[job])
  }

  /** The workers of the dispatch that have reported since. */
  ghost function Ours(ws: seq<string>, more: seq<Event>, job: JobId): set<string> {
    set w | w in ws && ReportedIn(more, job, w)
  }

  /** After any run without a new dispatch the test is wrong exactly when some
      worker of the dispatch is missing, and no more of them are missing than there
      are other reports on file: old ones, and ones of other workers. */
  lemma WrongExactly(t: Tracking, job: JobId, assignees: seq<string>, more: seq<Event>)
    requires job in t.dispatched && Distinct(t.dispatched[job]) && SameDispatch(more, job)
    ensures var ws, done := t.dispatched[job], Get(After(t, more).done, job, {});
            var ours := Ours(ws, more, job);
            !TestIsRight(t, job, assignees, more) <==> 0 < |SetOf(ws) - ours| <= |done - ours|
  {
    var ws, done := t.dispatched[job], Get(After(t, more).done, job, {});
    var ours := Ours(ws, more, job);
    forall w | w in ours ensures w in done { DispatchKeeps(t, more, job, w); }
    DispatchKeeps(t, more, job, "");
    DistinctSize(ws);
    Remainders(SetOf(ws), done, ours);
    NoneMissing(ws, more, job);
  }

  lemma Remainders(a: set<string>, b: set<string>, common: set<string>)
    requires common <= a && common <= b
    ensures |b| >= |a| <==> |a - common| <= |b - common|
  {
    assert a == common + (a - common) && b == common + (b - common);
  }

  lemma NoneMissing(ws: seq<string>, more: seq<Event>, job: JobId)
    ensures Ours(ws, more, job) <= SetOf(ws)
    ensures AllReported(more, job, ws) <==> |SetOf(ws) - Ours(ws, more, job)| == 0
  {
    if AllReported(more, job, ws) {
      assert SetOf(ws) - Ours(ws, more, job) == {};
    } else {
      var w :| w in ws && !ReportedIn(more, job, w);
      assert w in SetOf(ws) - Ours(ws, more, job);
    }
  }

  /** Only workers of the set report on the job. */
  ghost predicate ReportersIn(more: seq<Event>, job: JobId, reporters: set<string>) {
    forall i :: 0 <= i < |more| && more[i].Done? && more[i].job == job ==> more[i].worker in reporters
  }

  /** The test is right in all that can follow, given who may report. */
  ghost predicate AlwaysRight(t: Tracking, job: JobId, assignees: seq<string>, reporters: set<string>)
    requires job in t.dispatched
  {
    forall more | SameDispatch(more, job) && ReportersIn(more, job, reporters) :: TestIsRight(t, job, assignees, more)
  }

  lemma FreshIsRight(t: Tracking, job: JobId, assignees: seq<string>, more: seq<Event>)
    requires job in t.dispatched && Distinct(t.dispatched[job]) && SameDispatch(more, job)
    requires ReportersIn(more, job, SetOf(t.dispatched[job])) && Get(t.done, job, {}) == {}
    ensures TestIsRight(t, job, assignees, more)
  {
    var ws, done := t.dispatched[job], Get(After(t, more).done, job, {});
    forall w | w in done ensures w in Ours(ws, more, job) { DispatchKeeps(t, more, job, w); }
    assert done - Ours(ws, more, job) == {};
    WrongExactly(t, job, assignees, more);
  }

  /** The given workers report, all but one; in its place another job gets a report. */
  ghost function AllBut(job: JobId, ws: seq<string>, y: string): seq<Event> {
    seq(|ws|, i requires 0 <= i < |ws| => Done(if ws[i] == y then job + 1 else job, ws[i]))
  }

  lemma AllButReports(job: JobId, ws: seq<string>, y: string, w: string)
    ensures SameDispatch(AllBut(job, ws, y), job)
    ensures ReportedIn(AllBut(job, ws, y), job, w) <==> w in ws && w != y
  {
    var more := AllBut(job, ws, y);
    if w in ws && w != y {
      var i :| 0 <= i < |ws| && ws[i] == w;
      assert more[i] == Done(job, w);
    }
  }

  /** One other report on file makes the test pass with one worker missing. */
  lemma OneMissing(t: Tracking, job: JobId, assignees: seq<string>, more: seq<Event>, x: string, y: string)
    requires job in t.dispatched && Distinct(t.dispatched[job]) && SameDispatch(more, job)
    requires y in t.dispatched[job] && forall w :: w in t.dispatched[job] ==> (ReportedIn(more, job, w) <==> w != y)
    requires x in Get(After(t, more).done, job, {}) && (x in t.dispatched[job] ==> x == y)
    ensures !TestIsRight(t, job, assignees, more)
  {
    var ws, done := t.dispatched[job], Get(After(t, more).done, job, {});
    var ours := Ours(ws, more, job);
    assert SetOf(ws) - ours == {y};
    assert x in done - ours;
    SubsetSize({x}, done - ours);
    WrongExactly(t, job, assignees, more);
  }

  /** A report on file at the dispatch lets the test pass too early. */
  lemma StaleIsWrong(t: Tracking, job: JobId, assignees: seq<string>, x: string) returns (more: seq<Event>)
    requires job in t.dispatched && Distinct(t.dispatched[job]) && t.dispatched[job] != []
    requires x in Get(t.done, job, {})
    ensures SameDispatch(more, job) && ReportersIn(more, job, SetOf(t.dispatched[job]))
    ensures !TestIsRight(t, job, assignees, more)
  {
    var ws := t.dispatched[job];
    var y := if x in ws then x else ws[0];
    more := AllBut(job, ws, y);
    forall w ensures ReportedIn(more, job, w) <==> w in ws && w != y { AllButReports(job, ws, y, w); }
    AllButReports(job, ws, y, y);
    DispatchKeeps(t, more, job, x);
    OneMissing(t, job, assignees, more, x, y);
  }

  /** So does a report of a worker that is not of the present dispatch. */
  lemma StrangerIsWrong(t: Tracking, job: JobId, assignees: seq<string>, x: string) returns (more: seq<Event>)
    requires job in t.dispatched && Distinct(t.dispatched[job]) && t.dispatched[job] != []
    requires x !in t.dispatched[job]
    ensures SameDispatch(more, job) && ReportersIn(more, job, SetOf(t.dispatched[job]) + {x})
    ensures !TestIsRight(t, job, assignees, more)
  {
    var ws := t.dispatched[job];
    var y := ws[0];
    var rest := AllBut(job, ws, y);
    more := [Done(job, x)] + rest;
    AllButReports(job, ws, y, y);
    forall w ensures ReportedIn(more, job, w) <==> w == x || (w in ws && w != y) {
      AllButReports(job, ws, y, w);
      assert more[0] == Done(job, x);
      if ReportedIn(rest, job, w) {
        var i :| 0 <= i < |rest| && rest[i] == Done(job, w);
        assert more[i + 1] == Done(job, w);
      }
      if i :| 0 < i < |more| && more[i] == Done(job, w) { assert rest[i - 1] == Done(job, w); }
    }
    DispatchKeeps(t, more, job, x);
    OneMissing(t, job, assignees, more, x, y);
  }

  /** The test is right in all that can follow a dispatch exactly when no report
      was on file and nobody but the dispatched workers can report, or when nobody
      was dispatched to. */
  lemma TestIsRightExactly(t: Tracking, job: JobId, assignees: seq<string>, reporters: set<string>)
    requires job in t.dispatched && Distinct(t.dispatched[job]) && SetOf(t.dispatched[job]) <= reporters
    ensures AlwaysRight(t, job, assignees, reporters) <==>
            t.dispatched[job] == [] || (Get(t.done, job, {}) == {} && reporters == SetOf(t.dispatched[job]))
  {
    var ws := t.dispatched[job];
    if ws == [] {
      forall more | SameDispatch(more, job) ensures TestIsRight(t, job, assignees, more) {
        DispatchKeeps(t, more, job, "");
      }
    } else if x :| x in Get(t.done, job, {}) {
      var more := StaleIsWrong(t, job, assignees, x);
    } else if x :| x in reporters && x !in ws {
      var more := StrangerIsWrong(t, job, assignees, x);
    } else {
      forall more | SameDispatch(more, job) && ReportersIn(more, job, reporters) ensures TestIsRight(t, job, assignees, more) {
        FreshIsRight(t, job, assignees, more);
      }
    }
  }

  lemma RunFour(a: Event, b: Event, c: Event, d: Event)
    ensures Run([a, b, c, d]) == Apply(Apply(Apply(Apply(Run([]), a), b), c), d)
  {
    RunSnoc([], a);
    RunSnoc([a], b);
    RunSnoc([a, b], c);
    RunSnoc([a, b, c], d);
    assert [] + [a] == [a] && [a] + [b] == [a, b];
    assert [a, b] + [c] == [a, b, c] && [a, b, c] + [d] == [a, b, c, d];
  }

  /** A job is preempted after one of its workers has reported and is dispatched
      to the same workers again: the other worker's report completes it. */
  lemma PreemptedCompletesEarly(job: JobId, assignees: seq<string>)
    ensures var ws := ["a", "b"];
            Complete(Run([Dispatch(job, ws), Done(job, "a"), Dispatch(job, ws), Done(job, "b")]), job, assignees)
    ensures !AllReported([Done(job, "b")], job, ["a", "b"])
  {
    var ws := ["a", "b"];
    var e := [Dispatch(job, ws), Done(job, "a"), Dispatch(job, ws), Done(job, "b")];
    RunFour(e[0], e[1], e[2], e[3]);
    assert Get(Run(e).done, job, {}) == {"a", "b"};
    assert "a" in ws && !ReportedIn([Done(job, "b")], job, "a");
  }

  /** A preempted job is dispatched to other workers, and a worker of the earlier
      dispatch, which was not told to stop, reports: the job completes before the
      second worker of the present dispatch has reported. */
  lemma EarlierWorkerCompletes(job: JobId, assignees: seq<string>)
    ensures Complete(Run([Dispatch(job, ["a", "b"]), Dispatch(job, ["c", "d"]), Done(job, "a"), Done(job, "c")]), job, assignees)
    ensures !AllReported([Done(job, "a"), Done(job, "c")], job, ["c", "d"])
  {
    var e := [Dispatch(job, ["a", "b"]), Dispatch(job, ["c", "d"]), Done(job, "a"), Done(job, "c")];
    RunFour(e[0], e[1], e[2], e[3]);
    assert Get(Run(e).done, job, {}) == {"a", "c"};
    assert "d" in ["c", "d"] by { assert ["c", "d"][1] == "d"; }
    assert !ReportedIn([Done(job, "a"), Done(job, "c")], job, "d");
  }

  lemma RunSnoc(events: seq<Event>, e: Event)
    ensures Run(events + [e]) == Apply(Run(events), e)
  {
    assert (events + [e])[..|events|] == events;
  }
}
