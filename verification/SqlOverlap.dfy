/** Calls on the SQL accounting store that overlap: each reads the row of its job
    first and upserts later, and other calls may come in between. */
module SqlOverlap {
  import opened Common
  import opened WorkerLogs
  import opened Accounting
  import Retry = RetryBuffer
  import History = RetryHistory

  /** Calls are numbered; a call that is retried reads again. */
  datatype Event = Read(call: nat, ok: bool) | Upserted(call: nat)

  datatype Db = Db(table: map<i64, SqlRow>, read: map<nat, LogMap>)

  ghost predicate InCalls(events: seq<Event>, n: nat) {
    forall i :: 0 <= i < |events| ==> events[i].call < n
  }

  ghost function Step(us: seq<JobUsage>, s: Db, e: Event): Db
    requires e.call < |us|
  {
    var u := us[e.call];
    match e
    case Read(c, ok) => s.(read := s.read[c := Existing(s.table, u.jobId, ok)])
    case Upserted(c) => if c in s.read then s.(table := UpsertWith(s.table, u, s.read[c])) else s
  }

  /** The database after the first `k` events. */
  ghost function Run(us: seq<JobUsage>, events: seq<Event>, k: nat): Db
    requires InCalls(events, |us|) && k <= |events|
  {
    if k == 0 then Db(map[], map[]) else Step(us, Run(us, events, k - 1), events[k - 1])
  }

  /** The calls upserted by the first `k` events, in order. */
  ghost function Order(events: seq<Event>, k: nat): seq<nat>
    requires k <= |events|
  {
    if k == 0 then []
    else Order(events, k - 1) + (if events[k - 1].Upserted? then [events[k - 1].call] else [])
  }

  /** When call `c` last read before event `j`, and whether the read succeeded. */
  ghost function LastRead(events: seq<Event>, j: nat, c: nat): (r: Option<(nat, bool)>)
    requires j <= |events|
    ensures r.Some? ==> r.value.0 < j && events[r.value.0] == Read(c, r.value.1)
  {
    if j == 0 then None
    else if events[j - 1].Read? && events[j - 1].call == c then Some((j - 1, events[j - 1].ok))
    else LastRead(events, j - 1, c)
  }

  ghost predicate UpsertsAt(events: seq<Event>, j: nat, c: nat) {
    j < |events| && events[j] == Upserted(c)
  }

  /** Every call reads before it upserts, and upserts at most once. */
  ghost predicate WellFormed(events: seq<Event>, n: nat) {
    && InCalls(events, n)
    && (forall j: nat, c :: UpsertsAt(events, j, c) ==> LastRead(events, j, c).Some?)
    && (forall j: nat, k: nat, c :: UpsertsAt(events, j, c) && UpsertsAt(events, k, c) ==> j == k)
  }

  /** Upsert `j` of call `c` comes behind upsert `k` of the same job without
      having read its row: it read earlier, or its read failed. */
  ghost predicate Misses(ids: seq<u64>, events: seq<Event>, j: nat, c: nat, k: nat, c': nat) {
    && k < j && UpsertsAt(events, j, c) && UpsertsAt(events, k, c')
    && c < |ids| && c' < |ids| && ids[c] == ids[c']
    && var r := LastRead(events, j, c); r.Some? ==> !r.value.1 || r.value.0 <= k
  }

  /** No upsert misses an earlier one of its job. */
  ghost predicate Undisturbed(ids: seq<u64>, events: seq<Event>) {
    forall j, c, k, c' :: !Misses(ids, events, j, c, k, c')
  }

  /** The calls' usages belong to these jobs. */
  ghost predicate Assigns(us: seq<JobUsage>, ids: seq<u64>) {
    |us| == |ids| && forall i :: 0 <= i < |us| ==> us[i].jobId == ids[i]
  }

  lemma {:induction false} OrderBelow(events: seq<Event>, k: nat, n: nat)
    requires k <= |events| && InCalls(events, n)
    ensures Below(Order(events, k), n)
  {
    if k > 0 { OrderBelow(events, k - 1, n); }
  }

  /** The table is the one that whole calls, one after the other, would leave. */
  ghost predicate AsIfSerial(us: seq<JobUsage>, events: seq<Event>, k: nat)
    requires InCalls(events, |us|) && k <= |events|
  {
    OrderBelow(events, k, |us|);
    Run(us, events, k).table == UpsertAll(Written(us, Order(events, k)))
  }

  // ----- undisturbed calls are as good as serial ones -----

  lemma {:induction false} ReadIs(us: seq<JobUsage>, events: seq<Event>, j: nat, c: nat)
    requires InCalls(events, |us|) && j <= |events|
    ensures match LastRead(events, j, c)
            case None => c !in Run(us, events, j).read
            case Some((i, ok)) =>
              && c in Run(us, events, j).read && c < |us|
              && Run(us, events, j).read[c] == Existing(Run(us, events, i).table, us[c].jobId, ok)
  {
    if j > 0 { ReadIs(us, events, j - 1, c); }
  }

  /** Between two moments without an upsert of the job its row stays. */
  lemma {:induction false} RowStays(us: seq<JobUsage>, events: seq<Event>, i: nat, j: nat, id: u64)
    requires InCalls(events, |us|) && i <= j <= |events|
    requires forall k: nat, c: nat :: i <= k < j && UpsertsAt(events, k, c) ==> us[c].jobId != id
    ensures Existing(Run(us, events, i).table, id, true) == Existing(Run(us, events, j).table, id, true)
    decreases j
  {
    if i < j {
      RowStays(us, events, i, j - 1, id);
      var e := events[j - 1];
      if e.Upserted? {
        assert UpsertsAt(events, j - 1, e.call);
        WordBack(id);
        WordBack(us[e.call].jobId);
      }
    }
  }

  lemma {:induction false} SerialNext(us: seq<JobUsage>, events: seq<Event>, k: nat, ids: seq<u64>)
    requires Assigns(us, ids) && WellFormed(events, |us|) && Undisturbed(ids, events)
    requires k < |events| && AsIfSerial(us, events, k)
    ensures AsIfSerial(us, events, k + 1)
  {
    OrderBelow(events, k, |us|);
    OrderBelow(events, k + 1, |us|);
    match events[k]
    case Read(c, ok) =>
      assert Order(events, k + 1) == Order(events, k);
    case Upserted(c) =>
      assert UpsertsAt(events, k, c);
      ReadsPresentRow(us, events, k, c, ids);
      WrittenSnoc(us, Order(events, k), c);
  }

  lemma WrittenSnoc(us: seq<JobUsage>, order: seq<nat>, c: nat)
    requires Below(order, |us|) && c < |us|
    ensures Below(order + [c], |us|)
    ensures UpsertAll(Written(us, order + [c])) == Upsert(UpsertAll(Written(us, order)), us[c])
  {
    var ws := Written(us, order + [c]);
    assert ws[..|ws| - 1] == Written(us, order);
  }

  /** An undisturbed upsert has read what is in the table when it writes. */
  lemma ReadsPresentRow(us: seq<JobUsage>, events: seq<Event>, j: nat, c: nat, ids: seq<u64>)
    requires Assigns(us, ids) && WellFormed(events, |us|) && Undisturbed(ids, events) && UpsertsAt(events, j, c)
    ensures var s := Run(us, events, j);
            c in s.read && s.read[c] == Existing(s.table, us[c].jobId, true)
  {
    ReadIs(us, events, j, c);
    var (i, ok) := LastRead(events, j, c).value;
    var from := if ok then i else 0;
    forall k: nat, c': nat | from <= k < j && UpsertsAt(events, k, c') ensures us[c'].jobId != us[c].jobId {
      assert !Misses(ids, events, j, c, k, c');
    }
    RowStays(us, events, from, j, us[c].jobId);
  }

  lemma SerialStart(us: seq<JobUsage>, events: seq<Event>)
    requires InCalls(events, |us|)
    ensures AsIfSerial(us, events, 0)
  {
    assert Written(us, []) == [];
  }

  lemma {:induction false} UndisturbedIsSerial(us: seq<JobUsage>, events: seq<Event>, k: nat, ids: seq<u64>)
    requires Assigns(us, ids) && WellFormed(events, |us|) && Undisturbed(ids, events) && k <= |events|
    ensures AsIfSerial(us, events, k)
  {
    if k == 0 {
      SerialStart(us, events);
    } else {
      UndisturbedIsSerial(us, events, k - 1, ids);
      SerialNext(us, events, k - 1, ids);
    }
  }

  // ----- a missed upsert can lose log ids -----

  const RANK := "rank"

  /** One call knows a log id of a worker, and no other call knows anything. */
  ghost function OnlyKnownTo(ids: seq<u64>, c: nat): (us: seq<JobUsage>)
    ensures Assigns(us, ids)
  {
    seq(|ids|, i requires 0 <= i < |ids| => Blank(ids[i], if i == c then map[RANK := WorkerLogFiles(Some("id"), None)] else map[]))
  }

  ghost predicate Unheard(s: Db) {
    && (forall key :: key in s.table ==> s.table[key].logs == map[])
    && (forall c :: c in s.read ==> s.read[c] == map[])
  }

  /** Before that call upserts, nobody has heard of the id. */
  lemma {:induction false} UnheardBefore(ids: seq<u64>, events: seq<Event>, k: nat, c: nat)
    requires InCalls(events, |ids|) && k <= |events|
    requires forall m: nat :: m < k ==> !UpsertsAt(events, m, c)
    ensures Unheard(Run(OnlyKnownTo(ids, c), events, k))
  {
    if k > 0 {
      UnheardBefore(ids, events, k - 1, c);
      assert !UpsertsAt(events, k - 1, c);
      var e := events[k - 1];
      assert e.call != c ==> OnlyKnownTo(ids, c)[e.call].logs == map[];
    }
  }

  /** The upsert that misses another leaves a row without its log id. */
  lemma MissedIsLost(ids: seq<u64>, events: seq<Event>, j: nat, c: nat, k: nat, c': nat)
    requires WellFormed(events, |ids|) && Misses(ids, events, j, c, k, c')
    ensures var us := OnlyKnownTo(ids, c'); var table := Run(us, events, j + 1).table;
            AsI64(ids[c]) in table && table[AsI64(ids[c])].logs == map[]
  {
    var us := OnlyKnownTo(ids, c');
    assert LastRead(events, j, c).Some?;
    ReadIs(us, events, j, c);
    var (i, ok) := LastRead(events, j, c).value;
    if ok {
      assert forall m: nat :: UpsertsAt(events, m, c') ==> m == k;
      UnheardBefore(ids, events, i, c');
    }
    assert Run(us, events, j).read[c] == map[];
    assert c != c';
    assert us[c].logs == map[];
    MergeAbsorbs(map[], map[]);
  }

  lemma {:induction false} OrderHas(events: seq<Event>, m: nat, k: nat, c: nat)
    requires m <= |events| && k < m && UpsertsAt(events, k, c)
    ensures c in Order(events, m)
  {
    if k < m - 1 { OrderHas(events, m - 1, k, c); }
  }

  /** Serial calls would have kept it. */
  lemma SerialKeeps(ids: seq<u64>, order: seq<nat>, c: nat)
    requires Below(order, |ids|) && c in order
    ensures var us := OnlyKnownTo(ids, c); var table := UpsertAll(Written(us, order));
            AsI64(ids[c]) in table && table[AsI64(ids[c])].logs != map[]
  {
    var us := OnlyKnownTo(ids, c);
    var ws, id := Written(us, order), ids[c];
    var i :| 0 <= i < |order| && order[i] == c;
    assert ws[i] == us[c];
    OfJobMembers(ws, id, us[c]);
    TableIsSummary(ws, id);
    var mine := OfJob(ws, id);
    var m :| 0 <= m < |mine| && mine[m] == us[c];
    assert LogsOf(mine)[m] == us[c].logs;
    KnownMergeAll(LogsOf(mine), (RANK, Stdout));
    assert (RANK, Stdout) in Known(us[c].logs);
  }

  lemma DisturbedIsNot(ids: seq<u64>, events: seq<Event>, j: nat, c: nat, k: nat, c': nat)
    requires WellFormed(events, |ids|) && Misses(ids, events, j, c, k, c')
    ensures !AsIfSerial(OnlyKnownTo(ids, c'), events, j + 1)
  {
    MissedIsLost(ids, events, j, c, k, c');
    OrderHas(events, j + 1, k, c');
    OrderBelow(events, j + 1, |ids|);
    SerialKeeps(ids, Order(events, j + 1), c');
  }

  /** For all usages of the calls' jobs, the table is at every moment. */
  ghost predicate AlwaysSerial(ids: seq<u64>, events: seq<Event>)
    requires InCalls(events, |ids|)
  {
    forall us, k: nat | Assigns(us, ids) && k <= |events| :: AsIfSerial(us, events, k)
  }

  /** Overlapping calls are as good as serial ones, for all usages and at every
      moment, exactly when no upsert misses an earlier one of its job. */
  lemma SerialExactly(ids: seq<u64>, events: seq<Event>)
    requires WellFormed(events, |ids|)
    ensures AlwaysSerial(ids, events) <==> Undisturbed(ids, events)
  {
    if Undisturbed(ids, events) {
      forall us, k: nat | Assigns(us, ids) && k <= |events| ensures AsIfSerial(us, events, k) {
        UndisturbedIsSerial(us, events, k, ids);
      }
    } else {
      var j, c, k, c' :| Misses(ids, events, j, c, k, c');
      DisturbedIsNot(ids, events, j, c, k, c');
    }
  }

  /** Two calls that both read before either writes: the row keeps nothing of
      the first, whatever its log ids were. */
  lemma FirstIsLost(a: JobUsage, b: JobUsage)
    requires a.jobId == b.jobId
    ensures Run([a, b], [Read(0, true), Read(1, true), Upserted(0), Upserted(1)], 4).table == map[AsI64(b.jobId) := Store(b)]
  {
    var us, e := [a, b], [Read(0, true), Read(1, true), Upserted(0), Upserted(1)];
    MergeAbsorbs(a.logs, map[]);
    MergeAbsorbs(b.logs, map[]);
    assert Run(us, e, 0) == Db(map[], map[]);
    assert Run(us, e, 1) == Db(map[], map[0 := map[]]);
    assert Run(us, e, 2) == Db(map[], map[0 := map[], 1 := map[]]);
    assert Run(us, e, 3).table == map[AsI64(a.jobId) := Store(a)];
  }

  // ----- what this means for the backends and for retries -----

  /** The backends agree on what was upserted, in the order of the upserts. */
  lemma OverlappingBackendsAgree(us: seq<JobUsage>, ids: seq<u64>, events: seq<Event>, f: HistoryFilter,
                                 fromFile: map<u64, JobUsage>)
    requires Assigns(us, ids) && WellFormed(events, |us|) && Undisturbed(ids, events)
    requires f.Range? ==> (f.start < TWO_63 <==> f.end < TWO_63)
    requires Below(Order(events, |events|), |us|)
    requires Summarizes(fromFile, Written(us, Order(events, |events|)), f)
    ensures Select(Run(us, events, |events|).table, f) == AsFromSql(fromFile)
  {
    UndisturbedIsSerial(us, events, |events|, ids);
    BackendsAgree(Written(us, Order(events, |events|)), f, fromFile);
  }

  /** Once nothing waits and nothing was dropped, the database knows the same log
      ids as a store that never failed, if no upsert missed another of its job. */
  lemma RetriesKeepLogs(retries: seq<Retry.Event>, us: seq<JobUsage>, ids: seq<u64>, events: seq<Event>, id: u64)
    requires var s := Retry.Run(retries); s.calls == |us| && Retry.Waiting(s) == [] && s.dropped == []
    requires Assigns(us, ids) && WellFormed(events, |us|) && Undisturbed(ids, events)
    requires Order(events, |events|) == Retry.Run(retries).primary
    requires OfJob(us, id) != []
    ensures var table := Run(us, events, |events|).table;
            AsI64(id) in table && Known(table[AsI64(id)].logs) == Known(Summary(us, id).logs)
  {
    UndisturbedIsSerial(us, events, |events|, ids);
    History.RetriesKeepLogs(retries, us, id);
    TableIsSummary(Written(us, Order(events, |events|)), id);
  }
}
