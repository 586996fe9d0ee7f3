/** Per-worker log ids of a job, and the merge that keeps partial reports from
    hiding one another. */
module WorkerLogs {
  import opened Common

  datatype WorkerLogFiles = WorkerLogFiles(stdout: Option<string>, stderr: Option<string>)

  type LogMap = map<string, WorkerLogFiles>

  datatype Stream = Stdout | Stderr

  function Pick<T>(old_: Option<T>, new_: Option<T>): Option<T> {
    if new_.Some? then new_ else old_
  }

  /** The merge as one map: later ids win, and nothing known is forgotten. */
  function Merge(base: LogMap, extra: LogMap): (m: LogMap)
    ensures m.Keys == base.Keys + extra.Keys
  {
    map w | w in base.Keys + extra.Keys ::
      if w !in extra then base[w]
      else if w !in base then extra[w]
      else WorkerLogFiles(Pick(base[w].stdout, extra[w].stdout), Pick(base[w].stderr, extra[w].stderr))
  }

  lemma MergeNext(base: LogMap, seen: LogMap, w: string, files: WorkerLogFiles)
    requires w !in seen
    ensures Merge(base, seen[w := files]) ==
            Merge(base, seen)[w := if w !in base then files else
              WorkerLogFiles(Pick(base[w].stdout, files.stdout), Pick(base[w].stderr, files.stderr))]
    ensures w in Merge(base, seen) <==> w in base
    ensures w in base ==> Merge(base, seen)[w] == base[w]
  {
  }

  /** Visits `extra` in an arbitrary order, updating `base` in place. */
  method MergeWorkerLogFileMaps(base: LogMap, extra: LogMap) returns (merged: LogMap)
    ensures merged == Merge(base, extra)
  {
    merged := base;
    var todo := extra.Keys;
    ghost var seen: LogMap := map[];
    while todo != {}
      invariant todo <= extra.Keys
      invariant seen == map w | w in extra.Keys - todo :: extra[w]
      invariant merged == Merge(base, seen)
      decreases |todo|
    {
      var w :| w in todo;
      var files := extra[w];
      MergeNext(base, seen, w, files);
      if w in merged {
        var existing := merged[w];
        if files.stdout.Some? { existing := existing.(stdout := files.stdout); }
        if files.stderr.Some? { existing := existing.(stderr := files.stderr); }
        merged := merged[w := existing];
      } else {
        merged := merged[w := files];
      }
      todo := todo - {w};
      seen := seen[w := files];
    }
    assert seen == extra;
  }

  /** The id recorded for one stream of one worker. */
  function IdOf(m: LogMap, w: string, s: Stream): Option<string> {
    if w !in m then None else if s == Stdout then m[w].stdout else m[w].stderr
  }

  lemma IdOfMerge(a: LogMap, b: LogMap, w: string, s: Stream)
    ensures IdOf(Merge(a, b), w, s) == Pick(IdOf(a, w, s), IdOf(b, w, s))
  {
  }

  /** A log map is its workers and their ids. */
  lemma SameLogs(a: LogMap, b: LogMap)
    requires a.Keys == b.Keys
    requires forall w, s :: IdOf(a, w, s) == IdOf(b, w, s)
    ensures a == b
  {
    forall w | w in a ensures a[w] == b[w] {
      assert IdOf(a, w, Stdout) == IdOf(b, w, Stdout) && IdOf(a, w, Stderr) == IdOf(b, w, Stderr);
    }
  }

  lemma MergeAssociative(a: LogMap, b: LogMap, c: LogMap)
    ensures Merge(Merge(a, b), c) == Merge(a, Merge(b, c))
  {
    var l, r := Merge(Merge(a, b), c), Merge(a, Merge(b, c));
    forall w, s ensures IdOf(l, w, s) == IdOf(r, w, s) {
      IdOfMerge(Merge(a, b), c, w, s);
      IdOfMerge(a, Merge(b, c), w, s);
    }
    SameLogs(l, r);
  }

  /** Repeating a report changes nothing, also when others came in between. */
  lemma MergeAbsorbs(a: LogMap, b: LogMap)
    ensures Merge(a, a) == a
    ensures Merge(Merge(a, b), b) == Merge(a, b)
    ensures Merge(map[], a) == a && Merge(a, map[]) == a
  {
    var m := Merge(a, b);
    forall w, s ensures IdOf(Merge(m, b), w, s) == IdOf(m, w, s) { IdOfMerge(m, b, w, s); }
    SameLogs(Merge(m, b), m);
    forall w, s ensures IdOf(Merge(a, a), w, s) == IdOf(a, w, s) { IdOfMerge(a, a, w, s); }
    SameLogs(Merge(a, a), a);
  }

  /** The (worker, stream) pairs that have an id. */
  ghost function Known(m: LogMap): set<(string, Stream)> {
    set w, s | w in m && s in {Stdout, Stderr} && IdOf(m, w, s).Some? :: (w, s)
  }

  lemma KnownMerge(a: LogMap, b: LogMap)
    ensures Known(Merge(a, b)) == Known(a) + Known(b)
  {
    var m := Merge(a, b);
    forall p | p in Known(m) ensures p in Known(a) + Known(b) { IdOfMerge(a, b, p.0, p.1); }
    forall p | p in Known(a) + Known(b) ensures p in Known(m) {
      IdOfMerge(a, b, p.0, p.1);
      assert p.0 in m;
    }
  }

  /** Merging a whole history of reports, oldest first. */
  function MergeAll(reports: seq<LogMap>): LogMap {
    if reports == [] then map[] else Merge(MergeAll(reports[..|reports| - 1]), reports[|reports| - 1])
  }

  /** A pair is known at the end exactly when some report knew it. */
  lemma {:induction false} KnownMergeAll(reports: seq<LogMap>, p: (string, Stream))
    ensures p in Known(MergeAll(reports)) <==> exists r :: r in reports && p in Known(r)
  {
    if reports != [] {
      var n := |reports| - 1;
      KnownMergeAll(reports[..n], p);
      KnownMerge(MergeAll(reports[..n]), reports[n]);
      assert reports == reports[..n] + [reports[n]];
    }
  }

  /** Order, repetition and retries of reports do not show in what is known. */
  lemma KnownDependsOnReportSet(reports: seq<LogMap>, reports': seq<LogMap>)
    requires forall r :: r in reports <==> r in reports'
    ensures Known(MergeAll(reports)) == Known(MergeAll(reports'))
  {
    forall p: (string, Stream)
      ensures p in Known(MergeAll(reports)) <==> p in Known(MergeAll(reports'))
    {
      KnownMergeAll(reports, p);
      KnownMergeAll(reports', p);
    }
  }

  /** The id that survives is the one in the last report that carries one. */
  lemma {:induction false} LastReportWins(reports: seq<LogMap>, i: nat, w: string, s: Stream)
    requires i < |reports| && IdOf(reports[i], w, s).Some?
    requires forall j :: i < j < |reports| ==> IdOf(reports[j], w, s).None?
    ensures IdOf(MergeAll(reports), w, s) == IdOf(reports[i], w, s)
  {
    var n := |reports| - 1;
    IdOfMerge(MergeAll(reports[..n]), reports[n], w, s);
    if i < n { LastReportWins(reports[..n], i, w, s); }
  }

  /** Merging histories is merging their merges. */
  lemma {:induction false} MergeAllConcat(xs: seq<LogMap>, ys: seq<LogMap>)
    ensures MergeAll(xs + ys) == Merge(MergeAll(xs), MergeAll(ys))
  {
    if ys == [] {
      assert xs + ys == xs;
      MergeAbsorbs(MergeAll(xs), map[]);
    } else {
      var n := |ys| - 1;
      assert (xs + ys)[..|xs + ys| - 1] == xs + ys[..n];
      MergeAllConcat(xs, ys[..n]);
      MergeAssociative(MergeAll(xs), MergeAll(ys[..n]), ys[n]);
    }
  }
}
