/** What the retry buffer does to the history in the primary store. */
module RetryHistory {
  import opened Common
  import opened WorkerLogs
  import opened Accounting
  import Retry = RetryBuffer

  lemma {:induction false} UpToMember(n: nat, r: nat)
    ensures Retry.UpTo(n)[r] == if r < n then 1 else 0
    ensures r in Retry.UpTo(n) <==> r < n
  {
    if n > 0 { UpToMember(n - 1, r); }
  }

  /** The primary only ever receives records of the run. */
  lemma PrimaryInRange(events: seq<Retry.Event>)
    ensures Below(Retry.Run(events).primary, Retry.Run(events).calls)
  {
    Retry.Conservation(events);
    var s := Retry.Run(events);
    forall i | 0 <= i < |s.primary| ensures s.primary[i] < s.calls {
      assert s.primary[i] in multiset(s.primary);
      UpToMember(s.calls, s.primary[i]);
    }
  }

  /** Once nothing waits and nothing was dropped, the primary knows the same
      per-worker log ids as a store that never failed, however many retries it
      took and in whatever order they succeeded. */
  lemma RetriesKeepLogs(events: seq<Retry.Event>, us: seq<JobUsage>, id: u64)
    requires var s := Retry.Run(events); s.calls == |us| && Retry.Waiting(s) == [] && s.dropped == []
    requires OfJob(us, id) != []
    ensures Below(Retry.Run(events).primary, |us|)
    ensures OfJob(Written(us, Retry.Run(events).primary), id) != []
    ensures Known(Summary(Written(us, Retry.Run(events).primary), id).logs) == Known(Summary(us, id).logs)
  {
    PrimaryInRange(events);
    Retry.Conservation(events);
    var order := Retry.Run(events).primary;
    var ps := Written(us, order);
    assert multiset(order) == Retry.UpTo(|us|);
    forall u ensures u in us <==> u in ps {
      if u in us {
        var n :| 0 <= n < |us| && us[n] == u;
        UpToMember(|us|, n);
        assert n in multiset(order);
        var i :| 0 <= i < |order| && order[i] == n;
        assert ps[i] == u;
      }
    }
    KnownIgnoresOrder(us, ps, id);
  }

  /** The run in which the first call fails, the second reaches the primary
      directly, and the retry of the first comes last. */
  function LateRetry(): seq<Retry.Event> {
    [Retry.Record(false, true), Retry.Record(true, true), Retry.Drain, Retry.Retry(true), Retry.EndPass]
  }

  lemma LateRetryOrder()
    ensures var s := Retry.Run(LateRetry()); s.primary == [1, 0] && Retry.Waiting(s) == [] && s.dropped == []
  {
    var e := LateRetry();
    Retry.RunSnoc([], e[0]);
    assert Retry.Run([e[0]]) == Retry.Start().(buffer := [0], local := [0], calls := 1) by {
      assert [] + [e[0]] == [e[0]];
    }
    Retry.RunSnoc([e[0]], e[1]);
    assert [e[0]] + [e[1]] == e[..2];
    Retry.RunSnoc(e[..2], e[2]);
    assert e[..2] + [e[2]] == e[..3];
    Retry.RunSnoc(e[..3], e[3]);
    assert e[..3] + [e[3]] == e[..4];
    Retry.RunSnoc(e[..4], e[4]);
    assert e[..4] + [e[4]] == e;
  }

  lemma TwoUsages(a: JobUsage, b: JobUsage)
    requires a.jobId == b.jobId
    ensures OfJob([a, b], b.jobId) != []
    ensures Summary([a, b], b.jobId) == b.(logs := Merge(a.logs, b.logs))
  {
    assert [] + [a] == [a] && [a] + [b] == [a, b];
    SummarySnoc([], a);
    SummarySnoc([a], b);
  }

  /** A retried record can overwrite a newer one: after that run the row of the
      primary is the older of two usages of a job, while a store that never
      failed shows the newer one. The log ids of both are kept either way. */
  lemma StaleRetryWins(older: JobUsage, newer: JobUsage)
    requires older.jobId == newer.jobId
    ensures Below(Retry.Run(LateRetry()).primary, 2)
    ensures var ps := Written([older, newer], Retry.Run(LateRetry()).primary);
            && OfJob(ps, newer.jobId) != []
            && Summary(ps, newer.jobId) == older.(logs := Merge(newer.logs, older.logs))
    ensures OfJob([older, newer], newer.jobId) != []
    ensures Summary([older, newer], newer.jobId) == newer.(logs := Merge(older.logs, newer.logs))
  {
    LateRetryOrder();
    WrittenSwapped(older, newer, Retry.Run(LateRetry()).primary);
    TwoUsages(older, newer);
    TwoUsages(newer, older);
  }

  lemma WrittenSwapped(a: JobUsage, b: JobUsage, order: seq<nat>)
    requires order == [1, 0]
    ensures Below(order, 2) && Written([a, b], order) == [b, a]
  {
  }

  // ----- exactly when the row is the newest usage -----

  /** The last write of a job. */
  ghost function LastOf(us: seq<JobUsage>, order: seq<nat>, id: u64): Option<nat>
    requires Below(order, |us|)
  {
    if order == [] then None
    else
      var n := |order| - 1;
      if us[order[n]].jobId == id then Some(order[n]) else LastOf(us, order[..n], id)
  }

  /** `last` is the last of a job's usages, if it has any. */
  ghost predicate EndsWith(mine: seq<JobUsage>, us: seq<JobUsage>, last: Option<nat>, id: u64) {
    match last
    case None => mine == []
    case Some(m) => m < |us| && us[m].jobId == id && mine != [] && mine[|mine| - 1] == us[m]
  }

  lemma {:induction false} LastOfIsLast(us: seq<JobUsage>, order: seq<nat>, id: u64)
    requires Below(order, |us|)
    ensures EndsWith(OfJob(Written(us, order), id), us, LastOf(us, order, id), id)
  {
    if order != [] {
      var n := |order| - 1;
      LastOfIsLast(us, order[..n], id);
      var init, u := Written(us, order[..n]), us[order[n]];
      assert Written(us, order) == init + [u];
      OfJobSnoc(init, u);
      assert u.jobId != id ==> OfJob(init + [u], id) == OfJob(init, id);
    }
  }

  /** The row of a job is its last write, but for the merged log ids. */
  lemma LastOfIsRow(us: seq<JobUsage>, order: seq<nat>, id: u64)
    requires Below(order, |us|)
    ensures LastOf(us, order, id).None? <==> OfJob(Written(us, order), id) == []
    ensures LastOf(us, order, id).Some? ==>
              var m := LastOf(us, order, id).value;
              m < |us| && Summary(Written(us, order), id).(logs := us[m].logs) == us[m]
  {
    LastOfIsLast(us, order, id);
  }

  ghost predicate Mentions(us: seq<JobUsage>, order: seq<nat>, id: u64)
    requires Below(order, |us|)
  {
    exists i :: 0 <= i < |order| && us[order[i]].jobId == id
  }

  /** Later writes of the job hide earlier ones; other jobs' writes do not. */
  lemma {:induction false} LastOfConcat(us: seq<JobUsage>, a: seq<nat>, b: seq<nat>, id: u64)
    requires Below(a, |us|) && Below(b, |us|)
    ensures Below(a + b, |us|)
    ensures if Mentions(us, b, id) then LastOf(us, a + b, id).Some? && LastOf(us, a + b, id).value in b
            else LastOf(us, a + b, id) == LastOf(us, a, id)
  {
    if b == [] {
      assert a + b == a;
    } else {
      var n := |b| - 1;
      LastOfConcat(us, a, b[..n], id);
      assert (a + b)[..|a + b| - 1] == a + b[..n];
      assert Mentions(us, b, id) <==> Mentions(us, b[..n], id) || us[b[n]].jobId == id;
      assert b == b[..n] + [b[n]];
    }
  }

  lemma StepGrows(s: Retry.Store, e: Retry.Event)
    ensures s.primary <= Retry.Step(s, e).primary && |Retry.Step(s, e).primary| <= |s.primary| + 1
    ensures s.dropped <= Retry.Step(s, e).dropped && s.calls <= Retry.Step(s, e).calls
  {
  }

  lemma {:induction false} RunGrows(events: seq<Retry.Event>, k: nat)
    requires k <= |events|
    ensures var s, s' := Retry.Run(events[..k]), Retry.Run(events);
            s.primary <= s'.primary && s.dropped <= s'.dropped && s.calls <= s'.calls
  {
    if k == |events| {
      assert events[..k] == events;
    } else {
      var n := |events| - 1;
      assert events[..n][..k] == events[..k];
      RunGrows(events[..n], k);
      StepGrows(Retry.Run(events[..n]), events[n]);
    }
  }

  /** Event `k` is the one that writes record `n` to the primary. */
  ghost predicate WrittenAt(events: seq<Retry.Event>, k: nat, n: nat) {
    k < |events| && n !in Retry.Run(events[..k]).primary && n in Retry.Run(events[..k + 1]).primary
  }

  lemma {:induction false} WhenWritten(events: seq<Retry.Event>, n: nat) returns (k: nat)
    requires n in Retry.Run(events).primary
    ensures WrittenAt(events, k, n)
  {
    k := |events| - 1;
    assert events[..k + 1] == events;
    if n in Retry.Run(events[..k]).primary {
      var init := events[..k];
      k := WhenWritten(init, n);
      assert init[..k] == events[..k] && init[..k + 1] == events[..k + 1];
    }
  }

  /** The primary right after record `n` was written ends with it. */
  lemma WrittenLast(events: seq<Retry.Event>, k: nat, n: nat)
    requires WrittenAt(events, k, n)
    ensures Retry.Run(events[..k + 1]).primary == Retry.Run(events[..k]).primary + [n]
  {
    assert events[..k + 1][..k] == events[..k];
    StepGrows(Retry.Run(events[..k]), events[k]);
  }

  /** No record of the job waits for the primary. */
  ghost predicate NoneWaits(us: seq<JobUsage>, s: Retry.Store, id: u64) {
    forall m :: m in Retry.Waiting(s) && m < |us| ==> us[m].jobId != id
  }

  /** What is written after a moment of a run that ends with nothing waiting and
      nothing dropped: the records that waited then, and later calls. */
  lemma WrittenLater(events: seq<Retry.Event>, k: nat, rest: seq<nat>, m: nat)
    requires k <= |events| && Retry.Waiting(Retry.Run(events)) == [] && Retry.Run(events).dropped == []
    requires Retry.Run(events).primary == Retry.Run(events[..k]).primary + rest
    ensures m in rest <==> m in Retry.Waiting(Retry.Run(events[..k]))
                           || Retry.Run(events[..k]).calls <= m < Retry.Run(events).calls
  {
    var s, end := Retry.Run(events[..k]), Retry.Run(events);
    Retry.Conservation(events[..k]);
    Retry.Conservation(events);
    RunGrows(events, k);
    UpToMember(s.calls, m);
    UpToMember(end.calls, m);
    OnceInAll(s.primary, rest, end.primary, Retry.Waiting(s), s.dropped, s.calls, end.calls, m);
  }

  lemma OnceInAll(before: seq<nat>, rest: seq<nat>, after: seq<nat>, waiting: seq<nat>, dropped: seq<nat>,
                  calls: nat, calls': nat, m: nat)
    requires after == before + rest && dropped == [] && calls <= calls'
    requires multiset(before) + multiset(waiting) + multiset(dropped) == Retry.UpTo(calls)
    requires multiset(after) == Retry.UpTo(calls')
    requires Retry.UpTo(calls)[m] == (if m < calls then 1 else 0)
    requires Retry.UpTo(calls')[m] == (if m < calls' then 1 else 0)
    ensures m in rest <==> m in waiting || calls <= m < calls'
  {
    assert multiset(after)[m] == multiset(before)[m] + multiset(rest)[m];
    assert Retry.UpTo(calls)[m] == multiset(before)[m] + multiset(waiting)[m];
    assert m in rest <==> m in multiset(rest);
    assert m in waiting <==> m in multiset(waiting);
  }

  /** Let `n` be the newest call of a job, on a run that ends with nothing waiting
      and nothing dropped. The primary's row is that of `n` exactly when no other
      record of the job was waiting right after `n` was written, whether `n` was
      written directly or by a retry. */
  lemma NewestRowExactly(events: seq<Retry.Event>, us: seq<JobUsage>, id: u64, n: nat, k: nat)
    requires var s := Retry.Run(events); s.calls == |us| && Retry.Waiting(s) == [] && s.dropped == []
    requires n < |us| && us[n].jobId == id && forall m :: n < m < |us| ==> us[m].jobId != id
    requires WrittenAt(events, k, n)
    ensures Below(Retry.Run(events).primary, |us|)
    ensures LastOf(us, Retry.Run(events).primary, id) == Some(n) <==>
            NoneWaits(us, Retry.Run(events[..k + 1]), id)
  {
    PrimaryInRange(events);
    PrimaryInRange(events[..k + 1]);
    RunGrows(events, k + 1);
    var s, order := Retry.Run(events[..k + 1]), Retry.Run(events).primary;
    var front, rest := s.primary, order[|s.primary|..];
    assert order == front + rest;
    assert Below(rest, |us|);
    WrittenLast(events, k, n);
    LastOfConcat(us, front, rest, id);
    forall m: nat ensures m in rest <==> m in Retry.Waiting(s) || s.calls <= m < |us| {
      WrittenLater(events, k + 1, rest, m);
    }
    Retry.Conservation(events[..k + 1]);
    WrittenIsKnown(events, k, n);
    MentionsExactly(us, s, rest, id, n);
  }

  lemma WrittenIsKnown(events: seq<Retry.Event>, k: nat, n: nat)
    requires WrittenAt(events, k, n)
    ensures var s := Retry.Run(events[..k + 1]); n < s.calls && n !in Retry.Waiting(s)
  {
    var s := Retry.Run(events[..k + 1]);
    Retry.Conservation(events[..k + 1]);
    UpToMember(s.calls, n);
    assert n in multiset(s.primary);
    assert Retry.UpTo(s.calls)[n] == multiset(s.primary)[n] + multiset(Retry.Waiting(s))[n] + multiset(s.dropped)[n];
  }

  lemma MentionsExactly(us: seq<JobUsage>, s: Retry.Store, rest: seq<nat>, id: u64, n: nat)
    requires Below(rest, |us|) && forall m :: n < m < |us| ==> us[m].jobId != id
    requires n < s.calls && n !in Retry.Waiting(s)
    requires forall m: nat :: m in rest <==> m in Retry.Waiting(s) || s.calls <= m < |us|
    ensures Mentions(us, rest, id) <==> !NoneWaits(us, s, id)
    ensures n !in rest
  {
    if Mentions(us, rest, id) {
      var i :| 0 <= i < |rest| && us[rest[i]].jobId == id;
      assert rest[i] in rest;
    }
    if !NoneWaits(us, s, id) {
      var m :| m in Retry.Waiting(s) && m < |us| && us[m].jobId == id;
      var i :| 0 <= i < |rest| && rest[i] == m;
    }
  }
}
