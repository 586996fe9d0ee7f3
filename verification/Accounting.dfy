/** The two accounting backends: a fold over the append-only file, and a table
    maintained by upserts that first merge the per-worker log ids. */
module Accounting {
  import opened Common
  import opened WorkerLogs
  import opened JobStatusText
  import Log = AccountingLog

  function AsI64(x: u64): i64 { if x < TWO_63 then x else x - TWO_64 }
  function AsU64(x: i64): u64 { if x >= 0 then x else x + TWO_64 }
  function LowI32(x: u64): i32 { var r := x % TWO_32; if r < TWO_31 then r else r - TWO_32 }
  function AsU32(x: i32): u32 { if x >= 0 then x else x + TWO_32 }

  function MapOption<A, B>(o: Option<A>, f: A -> B): Option<B> {
    if o.Some? then Some(f(o.value)) else None
  }

  /** Columns that the SQL store keeps verbatim, some of them as JSON. */
  datatype Texts = Texts(jobName: Option<string>, jobComment: Option<string>, commandLine: string, userId: string,
                         exitCode: Option<i32>, assignedWorkers: seq<string>, gresReq: map<string, u64>,
                         cgroupActive: bool, stdoutFileId: Option<string>, stderrFileId: Option<string>,
                         workdirFileId: Option<string>, outputArtifacts: seq<string>, waitForLicenses: bool,
                         priorityOffset: Option<i32>, dependencies: Option<seq<u64>>,
                         dependencySpecs: Option<seq<string>>)

  datatype JobUsage = JobUsage(
    jobId: u64, texts: Texts, submissionTime: u64, startTime: Option<u64>, endTime: Option<u64>,
    status: JobStatus, cpuTimeMs: u64, maxMemory: u64, reqNodes: u64, reqCores: u32, reqMemory: u64,
    arrayId: Option<u64>, arrayTaskId: Option<u32>, estimatedWalltime: Option<u64>, qos: Qos, logs: LogMap)

  datatype HistoryFilter = All | Single(id: u64) | Range(start: u64, end: u64)

  predicate Includes(f: HistoryFilter, id: u64) {
    match f
    case All => true
    case Single(i) => id == i
    case Range(s, e) => s <= id <= e
  }

  // ----- reference: one row per job -----

  /** The usages of one job, in order. */
  ghost function OfJob(us: seq<JobUsage>, id: u64): seq<JobUsage> {
    if us == [] then []
    else OfJob(us[..|us| - 1], id) + (if us[|us| - 1].jobId == id then [us[|us| - 1]] else [])
  }

  ghost predicate Below(order: seq<nat>, n: nat) {
    forall i :: 0 <= i < |order| ==> order[i] < n
  }

  /** The usages in the order in which a store received them. */
  ghost function Written(us: seq<JobUsage>, order: seq<nat>): seq<JobUsage>
    requires Below(order, |us|)
  {
    seq(|order|, i requires 0 <= i < |order| => us[order[i]])
  }

  ghost function LogsOf(us: seq<JobUsage>): seq<LogMap> {
    seq(|us|, i requires 0 <= i < |us| => us[i].logs)
  }

  /** What the history should say about a job: its latest usage, with the log
      ids of all its usages merged. */
  ghost function Summary(us: seq<JobUsage>, id: u64): JobUsage
    requires OfJob(us, id) != []
  {
    var mine := OfJob(us, id);
    mine[|mine| - 1].(logs := MergeAll(LogsOf(mine)))
  }

  ghost predicate RowIsSummary(table: map<u64, JobUsage>, us: seq<JobUsage>, f: HistoryFilter, id: u64) {
    && (id in table <==> Includes(f, id) && OfJob(us, id) != [])
    && (id in table ==> table[id] == Summary(us, id))
  }

  /** A table with the summary of every recorded job that passes the filter,
      and nothing else. */
  ghost predicate Summarizes(table: map<u64, JobUsage>, us: seq<JobUsage>, f: HistoryFilter) {
    forall id: u64 :: RowIsSummary(table, us, f, id)
  }

  /** What one more usage does to the summary of its job. */
  lemma SummarySnoc(us: seq<JobUsage>, u: JobUsage)
    ensures OfJob(us + [u], u.jobId) == OfJob(us, u.jobId) + [u]
    ensures forall id: u64 :: id != u.jobId ==> OfJob(us + [u], id) == OfJob(us, id)
    ensures Summary(us + [u], u.jobId) ==
            if OfJob(us, u.jobId) == [] then u
            else u.(logs := Merge(Summary(us, u.jobId).logs, u.logs))
  {
    OfJobSnoc(us, u);
    SnocLogs(OfJob(us, u.jobId), u);
  }

  lemma OfJobSnoc(us: seq<JobUsage>, u: JobUsage)
    ensures OfJob(us + [u], u.jobId) == OfJob(us, u.jobId) + [u]
    ensures forall id: u64 :: id != u.jobId ==> OfJob(us + [u], id) == OfJob(us, id)
  {
    assert (us + [u])[..|us|] == us;
  }

  lemma SnocLogs(mine: seq<JobUsage>, u: JobUsage)
    ensures MergeAll(LogsOf(mine + [u])) == if mine == [] then u.logs else Merge(MergeAll(LogsOf(mine)), u.logs)
  {
    var logs := LogsOf(mine + [u]);
    assert logs == LogsOf(mine) + [u.logs] && logs[..|mine|] == LogsOf(mine);
    MergeAbsorbs(u.logs, map[]);
  }

  lemma EmptySummarizes(f: HistoryFilter)
    ensures Summarizes(map[], [], f)
  {
  }

  /** Putting the updated summary of a usage's job into the table. */
  lemma SummarizesPut(table: map<u64, JobUsage>, us: seq<JobUsage>, u: JobUsage, f: HistoryFilter)
    requires Summarizes(table, us, f)
    ensures var row := if u.jobId in table then u.(logs := Merge(table[u.jobId].logs, u.logs)) else u;
            Summarizes(if Includes(f, u.jobId) then table[u.jobId := row] else table, us + [u], f)
  {
    SummarySnoc(us, u);
    var row := if u.jobId in table then u.(logs := Merge(table[u.jobId].logs, u.logs)) else u;
    var table' := if Includes(f, u.jobId) then table[u.jobId := row] else table;
    forall id: u64 ensures RowIsSummary(table', us + [u], f, id) {
      assert RowIsSummary(table, us, f, id);
      if id != u.jobId { assert OfJob(us + [u], id) == OfJob(us, id); }
    }
  }

  /** A table is determined by what it summarizes. */
  lemma SummarizesUnique(a: map<u64, JobUsage>, b: map<u64, JobUsage>, us: seq<JobUsage>, f: HistoryFilter)
    requires Summarizes(a, us, f) && Summarizes(b, us, f)
    ensures a == b
  {
    forall id: u64 ensures id in a <==> id in b ensures id in a ==> a[id] == b[id] {
      assert RowIsSummary(a, us, f, id) && RowIsSummary(b, us, f, id);
    }
  }

  /** Filtering while folding equals filtering the finished table. */
  lemma FilterCommutes(all: map<u64, JobUsage>, some: map<u64, JobUsage>, us: seq<JobUsage>, f: HistoryFilter)
    requires Summarizes(all, us, All) && Summarizes(some, us, f)
    ensures some == map id | id in all && Includes(f, id) :: all[id]
  {
    var restricted := map id | id in all && Includes(f, id) :: all[id];
    forall id: u64 ensures RowIsSummary(restricted, us, f, id) { assert RowIsSummary(all, us, All, id); }
    SummarizesUnique(some, restricted, us, f);
  }

  // ----- the answer in plain terms -----

  /** Usage `i` is the last of its job. */
  ghost predicate LastUsage(us: seq<JobUsage>, i: nat) {
    i < |us| && forall j :: i < j < |us| ==> us[j].jobId != us[i].jobId
  }

  lemma {:induction false} LastOfJob(us: seq<JobUsage>, i: nat)
    requires LastUsage(us, i)
    ensures OfJob(us, us[i].jobId) != [] && Summary(us, us[i].jobId).(logs := us[i].logs) == us[i]
  {
    var n := |us| - 1;
    if i < n {
      LastOfJob(us[..n], i);
      assert OfJob(us, us[i].jobId) == OfJob(us[..n], us[i].jobId) + [];
    }
  }

  lemma {:induction false} HasUsage(us: seq<JobUsage>, id: u64) returns (i: nat)
    requires OfJob(us, id) != []
    ensures LastUsage(us, i) && us[i].jobId == id
  {
    var n := |us| - 1;
    if us[n].jobId == id {
      i := n;
    } else {
      i := HasUsage(us[..n], id);
    }
  }

  /** A summary has a row for exactly the jobs that have a usage and pass the filter:
      all, the one named, or those from the first to the last named. */
  lemma RowsPlainly(table: map<u64, JobUsage>, us: seq<JobUsage>, f: HistoryFilter, id: u64)
    requires Summarizes(table, us, f)
    ensures id in table <==>
            && (exists i :: 0 <= i < |us| && us[i].jobId == id)
            && (f.Single? ==> id == f.id) && (f.Range? ==> f.start <= id && id <= f.end)
  {
    assert RowIsSummary(table, us, f, id);
    if OfJob(us, id) != [] { var i := HasUsage(us, id); }
    if i :| 0 <= i < |us| && us[i].jobId == id { OfJobMembers(us, id, us[i]); }
  }

  /** The row is the job's last usage but for the log ids; the id of a worker's stream
      is the one that the last usage to carry one carries. */
  lemma RowPlainly(table: map<u64, JobUsage>, us: seq<JobUsage>, f: HistoryFilter, i: nat)
    requires Summarizes(table, us, f) && LastUsage(us, i) && us[i].jobId in table
    ensures table[us[i].jobId].(logs := us[i].logs) == us[i]
  {
    assert RowIsSummary(table, us, f, us[i].jobId);
    LastOfJob(us, i);
  }

  /** Usage `i` is the last of its job to carry an id for the stream. */
  ghost predicate LastToCarry(us: seq<JobUsage>, i: nat, w: string, s: Stream) {
    && i < |us| && IdOf(us[i].logs, w, s).Some?
    && forall j :: i < j < |us| && us[j].jobId == us[i].jobId ==> IdOf(us[j].logs, w, s).None?
  }

  lemma {:induction false} CarriedId(us: seq<JobUsage>, i: nat, w: string, s: Stream)
    requires LastToCarry(us, i, w, s)
    ensures OfJob(us, us[i].jobId) != []
    ensures IdOf(Summary(us, us[i].jobId).logs, w, s) == IdOf(us[i].logs, w, s)
  {
    var n, id := |us| - 1, us[i].jobId;
    var init, u := us[..n], us[n];
    assert us == init + [u];
    SummarySnoc(init, u);
    if i < n {
      CarriedId(init, i, w, s);
      if u.jobId == id {
        IdOfMerge(Summary(init, id).logs, u.logs, w, s);
      } else {
        assert OfJob(us, id) == OfJob(init, id);
      }
    } else if OfJob(init, id) != [] {
      IdOfMerge(Summary(init, id).logs, u.logs, w, s);
    }
  }

  lemma LogsPlainly(table: map<u64, JobUsage>, us: seq<JobUsage>, f: HistoryFilter, i: nat, w: string, s: Stream)
    requires Summarizes(table, us, f) && LastToCarry(us, i, w, s) && us[i].jobId in table
    ensures IdOf(table[us[i].jobId].logs, w, s) == IdOf(us[i].logs, w, s)
  {
    assert RowIsSummary(table, us, f, us[i].jobId);
    CarriedId(us, i, w, s);
  }

  // ----- file backend -----

  /** Serialization of usages; the laws below are what is used of it. */
  datatype Codec = Codec(encode: JobUsage -> Option<Log.Blob>, decode: Log.Blob -> Option<JobUsage>)

  ghost predicate Faithful(c: Codec) {
    forall u :: c.encode(u).Some? ==> c.decode(c.encode(u).value) == Some(u)
  }

  /** The usages among the records; unreadable records are skipped. */
  function Decoded(c: Codec, recs: seq<Log.Blob>): seq<JobUsage> {
    if recs == [] then []
    else
      var init := Decoded(c, recs[..|recs| - 1]);
      match c.decode(recs[|recs| - 1])
      case None => init
      case Some(u) => init + [u]
  }

  lemma DecodedSnoc(c: Codec, recs: seq<Log.Blob>, b: Log.Blob)
    ensures Decoded(c, recs + [b]) == match c.decode(b)
              case None => Decoded(c, recs)
              case Some(u) => Decoded(c, recs) + [u]
  {
    assert (recs + [b])[..|recs|] == recs;
  }

  /** The usages that can be serialized. */
  function Encodable(c: Codec, us: seq<JobUsage>): seq<JobUsage> {
    if us == [] then []
    else
      var n := |us| - 1;
      Encodable(c, us[..n]) + (if c.encode(us[n]).Some? then [us[n]] else [])
  }

  /** The records that these usages leave in the file. */
  function Encoded(c: Codec, us: seq<JobUsage>): seq<Log.Blob> {
    if us == [] then []
    else
      var n := |us| - 1;
      Encoded(c, us[..n]) + (if c.encode(us[n]).Some? then [c.encode(us[n]).value] else [])
  }

  lemma {:induction false} DecodedEncoded(c: Codec, us: seq<JobUsage>)
    requires Faithful(c)
    ensures Decoded(c, Encoded(c, us)) == Encodable(c, us)
  {
    if us != [] {
      var n := |us| - 1;
      DecodedEncoded(c, us[..n]);
      if c.encode(us[n]).Some? {
        DecodedSnoc(c, Encoded(c, us[..n]), c.encode(us[n]).value);
      } else {
        assert Encoded(c, us) == Encoded(c, us[..n]);
      }
    }
  }

  /** How opening and writing the file went. */
  datatype FileOutcome = CannotOpen | Torn(n: nat) | Whole

  /** `seen` has been read from the file and `rest` is still to come; `us` are the
      usages among what has been read. */
  ghost predicate Reading(c: Codec, file: seq<byte>, rest: seq<byte>, seen: seq<Log.Blob>, us: seq<JobUsage>) {
    Log.ReadLog(file) == seen + Log.ReadLog(rest) && us == Decoded(c, seen)
  }

  lemma NothingRead(c: Codec, file: seq<byte>, f: HistoryFilter)
    ensures Reading(c, file, file, [], []) && Summarizes(map[], [], f)
  {
    EmptySummarizes(f);
  }

  lemma ReadingNext(c: Codec, file: seq<byte>, rest: seq<byte>, seen: seq<Log.Blob>, us: seq<JobUsage>)
    requires Log.HasEntry(rest) && Reading(c, file, rest, seen, us)
    ensures var b := rest[Log.LENGTH_SIZE..Log.EntryEnd(rest)];
            Reading(c, file, rest[Log.EntryEnd(rest)..], seen + [b],
                    match c.decode(b) case None => us case Some(u) => us + [u])
  {
    var b := rest[Log.LENGTH_SIZE..Log.EntryEnd(rest)];
    DecodedSnoc(c, seen, b);
    ConcatAssoc(seen, [b], Log.ReadLog(rest[Log.EntryEnd(rest)..]));
  }

  lemma AllRead(c: Codec, file: seq<byte>, rest: seq<byte>, seen: seq<Log.Blob>, us: seq<JobUsage>)
    requires !Log.HasEntry(rest) && Reading(c, file, rest, seen, us)
    ensures us == Decoded(c, Log.ReadLog(file))
  {
    assert seen + [] == seen;
  }

  class FileAccountingStore {
    const codec: Codec
    var file: seq<byte>

    constructor (c: Codec)
      ensures codec == c && file == []
    {
      codec, file := c, [];
    }

    /** Appends one entry. A usage that cannot be serialized is skipped without
        an error; a write that fails may leave a part of its entry behind. */
    method RecordJob(u: JobUsage, outcome: FileOutcome) returns (ok: bool)
      modifies this`file
      ensures ok <==> codec.encode(u).None? || outcome.Whole?
      ensures file == old(file) + Left(codec.encode(u), outcome)
    {
      match codec.encode(u) {
        case None =>
          ok := true;
        case Some(encoded) =>
          var combined := Log.LittleEndian(|encoded|, Log.LENGTH_SIZE) + encoded;
          match outcome {
            case CannotOpen => ok := false;
            case Torn(n) =>
              ok := false;
              file := file + (if n < |combined| then combined[..n] else combined);
            case Whole =>
              ok := true;
              file := file + combined;
          }
      }
    }

    /** Reads entry after entry and collapses them to one row per job. */
    method QueryHistory(f: HistoryFilter) returns (byJob: map<u64, JobUsage>)
      ensures Summarizes(byJob, Decoded(codec, Log.ReadLog(file)), f)
    {
      byJob := map[];
      var rest := file;
      ghost var seen: seq<Log.Blob>, us: seq<JobUsage> := [], [];
      NothingRead(codec, file, f);
      while Log.HasEntry(rest)
        invariant Reading(codec, file, rest, seen, us) && Summarizes(byJob, us, f)
        decreases |rest|
      {
        var end := Log.EntryEnd(rest);
        var buffer: Log.Blob := rest[Log.LENGTH_SIZE..end];
        ReadingNext(codec, file, rest, seen, us);
        match codec.decode(buffer) {
          case None =>
          case Some(usage) =>
            byJob := Collapse(byJob, usage, f, us);
            us := us + [usage];
        }
        rest, seen := rest[end..], seen + [buffer];
      }
      AllRead(codec, file, rest, seen, us);
    }

    /** One usage of the file: replace the row but keep the union of log ids. */
    method Collapse(byJob: map<u64, JobUsage>, usage: JobUsage, f: HistoryFilter, ghost us: seq<JobUsage>)
      returns (byJob': map<u64, JobUsage>)
      requires Summarizes(byJob, us, f)
      ensures Summarizes(byJob', us + [usage], f)
    {
      SummarizesPut(byJob, us, usage, f);
      byJob' := byJob;
      if Includes(f, usage.jobId) {
        if usage.jobId in byJob {
          var prev := byJob[usage.jobId];
          var logs := MergeWorkerLogFileMaps(prev.logs, usage.logs);
          byJob' := byJob[usage.jobId := usage.(logs := logs)];
        } else {
          byJob' := byJob[usage.jobId := usage];
        }
      }
    }
  }

  /** What one call leaves at the end of the file. */
  function Left(encoded: Option<Log.Blob>, outcome: FileOutcome): seq<byte> {
    if encoded.None? then []
    else
      var entry := Log.Entry(encoded.value);
      match outcome
      case CannotOpen => []
      case Torn(n) => Log.TornEntry(encoded.value, n)
      case Whole => entry
  }

  ghost predicate WithinCap(c: Codec, us: seq<JobUsage>) {
    forall i :: 0 <= i < |us| && c.encode(us[i]).Some? ==> |c.encode(us[i]).value| <= Log.MAX_RECORD_SIZE
  }

  lemma {:induction false} EncodedSmall(c: Codec, us: seq<JobUsage>)
    requires WithinCap(c, us)
    ensures forall i :: 0 <= i < |Encoded(c, us)| ==> |Encoded(c, us)[i]| <= Log.MAX_RECORD_SIZE
  {
    if us != [] { EncodedSmall(c, us[..|us| - 1]); }
  }

  /** After recording any usages, each within the size cap, the file backend
      reads back exactly those that could be serialized, in order. */
  lemma FileAnswers(c: Codec, us: seq<JobUsage>)
    requires Faithful(c) && WithinCap(c, us)
    ensures Decoded(c, Log.ReadLog(Log.WriteLog(Encoded(c, us)))) == Encodable(c, us)
  {
    EncodedSmall(c, us);
    Log.ReadBackExactly(Encoded(c, us));
    DecodedEncoded(c, us);
  }

  lemma {:induction false} DecodedConcat(c: Codec, xs: seq<Log.Blob>, ys: seq<Log.Blob>)
    ensures Decoded(c, xs + ys) == Decoded(c, xs) + Decoded(c, ys)
  {
    if ys == [] {
      assert xs + ys == xs;
    } else {
      var n := |ys| - 1;
      assert (xs + ys)[..|xs + ys| - 1] == xs + ys[..n];
      DecodedConcat(c, xs, ys[..n]);
    }
  }

  /** Whatever bytes come behind them, a torn entry or anything else, usages that
      were recorded are read back first. */
  lemma FileKeeps(c: Codec, us: seq<JobUsage>, behind: seq<byte>)
    requires Faithful(c) && WithinCap(c, us)
    ensures Encodable(c, us) <= Decoded(c, Log.ReadLog(Log.WriteLog(Encoded(c, us)) + behind))
  {
    EncodedSmall(c, us);
    Log.ReadInFront(Encoded(c, us), behind);
    DecodedConcat(c, Encoded(c, us), Log.ReadLog(behind));
    DecodedEncoded(c, us);
  }

  // ----- SQL backend -----

  /** One row as the database holds it. */
  datatype SqlRow = SqlRow(
    jobId: i64, texts: Texts, submissionTime: i64, startTime: Option<i64>, endTime: Option<i64>,
    status: string, cpuTimeMs: i64, maxMemory: i64, reqNodes: i32, reqCores: i32, reqMemory: i64,
    arrayId: Option<i64>, arrayTaskId: Option<i32>, estimatedWalltime: Option<i64>, qos: string, logs: LogMap)

  function AsI32(x: u32): i32 { if x < TWO_31 then x else x - TWO_32 }

  /** `usize as i32 as usize`. */
  function NodesAsU64(x: i32): u64 { if x >= 0 then x else x + TWO_64 }

  function Store(u: JobUsage): SqlRow {
    SqlRow(AsI64(u.jobId), u.texts, AsI64(u.submissionTime), MapOption(u.startTime, AsI64),
           MapOption(u.endTime, AsI64), FormatStatus(u.status), AsI64(u.cpuTimeMs),
           AsI64(u.maxMemory), LowI32(u.reqNodes), AsI32(u.reqCores), AsI64(u.reqMemory),
           MapOption(u.arrayId, AsI64), MapOption(u.arrayTaskId, AsI32), MapOption(u.estimatedWalltime, AsI64),
           FormatQos(u.qos), u.logs)
  }

  function Load(r: SqlRow): JobUsage {
    JobUsage(AsU64(r.jobId), r.texts, AsU64(r.submissionTime), MapOption(r.startTime, AsU64),
             MapOption(r.endTime, AsU64), ParseJobStatus(r.status, ExitCode(r.texts)),
             AsU64(r.cpuTimeMs), AsU64(r.maxMemory), NodesAsU64(r.reqNodes), AsU32(r.reqCores),
             AsU64(r.reqMemory), MapOption(r.arrayId, AsU64), MapOption(r.arrayTaskId, AsU32),
             MapOption(r.estimatedWalltime, AsU64), ParseQosLevel(r.qos), r.logs)
  }

  function ExitCode(t: Texts): Option<int> {
    match t.exitCode
    case None => None
    case Some(code) => Some(code as int)
  }

  /** A usage as it comes back from the database. */
  function Normalized(u: JobUsage): JobUsage {
    u.(status := ParseJobStatus(FormatStatus(u.status), ExitCode(u.texts)),
       reqNodes := NodesAsU64(LowI32(u.reqNodes)))
  }

  lemma WordBack(x: u64)
    ensures AsU64(AsI64(x)) == x
  {
  }

  lemma OptionBack(o: Option<u64>)
    ensures MapOption(MapOption(o, AsI64), AsU64) == o
  {
    if o.Some? { WordBack(o.value); }
  }

  lemma OptionBack32(o: Option<u32>)
    ensures MapOption(MapOption(o, AsI32), AsU32) == o
  {
  }

  lemma NodesBack(n: u64)
    ensures NodesAsU64(LowI32(n)) == n <==> n < TWO_31 || n >= TWO_64 - TWO_31
  {
  }

  lemma LoadStored(u: JobUsage)
    ensures Load(Store(u)) == Normalized(u)
  {
    WordBack(u.jobId);
    WordBack(u.submissionTime);
    WordBack(u.cpuTimeMs);
    WordBack(u.maxMemory);
    WordBack(u.reqMemory);
    OptionBack(u.startTime);
    OptionBack(u.endTime);
    OptionBack(u.arrayId);
    OptionBack(u.estimatedWalltime);
    OptionBack32(u.arrayTaskId);
    QosBack(u.qos);
  }

  /** Every column but two survives the database exactly. These two are
      normalized, and the whole usage survives exactly when its status text can
      be read back and its node count fits 32 bits. */
  lemma StoreThenLoad(u: JobUsage)
    ensures Load(Store(u)) == Normalized(u)
    ensures Load(Store(u)) == u <==>
            Survives(u.status, ExitCode(u.texts)) && (u.reqNodes < TWO_31 || u.reqNodes >= TWO_64 - TWO_31)
  {
    LoadStored(u);
    NodesBack(u.reqNodes);
    StatusRoundTrip(u.status, ExitCode(u.texts));
    SameButTwo(u, Normalized(u).status, Normalized(u).reqNodes);
  }

  lemma SameButTwo(u: JobUsage, status: JobStatus, reqNodes: u64)
    ensures u.(status := status, reqNodes := reqNodes) == u <==> status == u.status && reqNodes == u.reqNodes
  {
  }

  /** The database's view of a filter: ids are compared as signed numbers. */
  predicate SqlIncludes(f: HistoryFilter, key: i64) {
    match f
    case All => true
    case Single(i) => key == AsI64(i)
    case Range(s, e) => AsI64(s) <= key <= AsI64(e)
  }

  /** A range means the same to both backends exactly when its bounds lie on
      the same side of 2^63; the other filters always do. */
  lemma FiltersAgreeExactly(f: HistoryFilter)
    ensures (forall id: u64 :: SqlIncludes(f, AsI64(id)) == Includes(f, id))
            <==> (f.Range? ==> (f.start < TWO_63 <==> f.end < TWO_63))
  {
    if f.Range? {
      if f.start < TWO_63 <= f.end {
        assert SqlIncludes(f, AsI64(f.start)) != Includes(f, f.start);
      }
      if f.end < TWO_63 <= f.start {
        assert SqlIncludes(f, AsI64(f.end)) != Includes(f, f.end);
      }
    }
  }

  class SqlxAccountingStore {
    var table: map<i64, SqlRow>

    constructor ()
      ensures table == map[]
    {
      table := map[];
    }

    /** First step of a call: the log ids of the row already there, if there is
        one and it could be `read`. */
    method ReadExisting(id: u64, read: bool) returns (prev: LogMap)
      ensures prev == Existing(table, id, read)
    {
      prev := map[];
      if read && AsI64(id) in table {
        prev := Load(table[AsI64(id)]).logs;
      }
    }

    /** Second step: every column is overwritten, the log ids after merging them
        with those read. Other calls may have upserted in between. */
    method WriteMerged(u: JobUsage, prev: LogMap)
      modifies this`table
      ensures table == UpsertWith(old(table), u, prev)
    {
      var logs := MergeWorkerLogFileMaps(prev, u.logs);
      table := table[AsI64(u.jobId) := Store(u.(logs := logs))];
    }

    /** A call that no other call interrupts. */
    method RecordJob(u: JobUsage, read: bool)
      modifies this`table
      ensures read ==> table == Upsert(old(table), u)
      ensures !read ==> table == old(table)[AsI64(u.jobId) := Store(u)]
    {
      var prev := ReadExisting(u.jobId, read);
      WriteMerged(u, prev);
      MergeAbsorbs(u.logs, map[]);
    }

    method QueryHistory(f: HistoryFilter) returns (byJob: map<u64, JobUsage>)
      ensures byJob == Select(table, f)
    {
      byJob := map[];
      var todo := table.Keys;
      while todo != {}
        invariant todo <= table.Keys
        invariant forall id: u64 :: id in byJob <==> AsI64(id) in table.Keys - todo && SqlIncludes(f, AsI64(id))
        invariant forall id: u64 :: id in byJob ==> byJob[id] == Load(table[AsI64(id)])
        decreases |todo|
      {
        var key :| key in todo;
        todo := todo - {key};
        SignedIds(key);
        if SqlIncludes(f, key) {
          byJob := byJob[AsU64(key) := Load(table[key])];
        }
      }
    }
  }

  /** Job ids and their signed keys correspond one to one. */
  lemma SignedIds(key: i64)
    ensures AsI64(AsU64(key)) == key
    ensures forall id: u64 :: AsI64(id) == key ==> id == AsU64(key)
  {
  }

  /** The log ids that a call finds for its job. */
  ghost function Existing(table: map<i64, SqlRow>, id: u64, read: bool): LogMap {
    if read && AsI64(id) in table then table[AsI64(id)].logs else map[]
  }

  ghost function UpsertWith(table: map<i64, SqlRow>, u: JobUsage, prev: LogMap): map<i64, SqlRow> {
    table[AsI64(u.jobId) := Store(u.(logs := Merge(prev, u.logs)))]
  }

  /** A whole call that reads the present row. */
  ghost function Upsert(table: map<i64, SqlRow>, u: JobUsage): map<i64, SqlRow> {
    UpsertWith(table, u, Existing(table, u.jobId, true))
  }

  ghost function Select(table: map<i64, SqlRow>, f: HistoryFilter): map<u64, JobUsage> {
    map id: u64 | AsI64(id) in table && SqlIncludes(f, AsI64(id)) :: Load(table[AsI64(id)])
  }

  ghost function UpsertAll(us: seq<JobUsage>): map<i64, SqlRow> {
    if us == [] then map[] else Upsert(UpsertAll(us[..|us| - 1]), us[|us| - 1])
  }

  /** One more `RecordJob` that succeeds on each backend is one more usage of the
      history. */
  lemma HistorySnoc(c: Codec, us: seq<JobUsage>, u: JobUsage)
    ensures Log.WriteLog(Encoded(c, us + [u])) == Log.WriteLog(Encoded(c, us)) + Left(c.encode(u), Whole)
    ensures UpsertAll(us + [u]) == Upsert(UpsertAll(us), u)
  {
    assert (us + [u])[..|us|] == us;
    if c.encode(u).Some? {
      Log.WriteLogSnoc(Encoded(c, us), c.encode(u).value);
    } else {
      assert Encoded(c, us + [u]) == Encoded(c, us);
    }
  }

  /** The table holds the stored form of every job's summary. */
  lemma {:induction false} TableIsSummary(us: seq<JobUsage>, id: u64)
    ensures AsI64(id) in UpsertAll(us) <==> OfJob(us, id) != []
    ensures OfJob(us, id) != [] ==> UpsertAll(us)[AsI64(id)] == Store(Summary(us, id))
  {
    if us != [] {
      var n := |us| - 1;
      var init, u := us[..n], us[n];
      assert us == init + [u];
      TableIsSummary(init, id);
      SummarySnoc(init, u);
      MergeAbsorbs(u.logs, map[]);
      assert AsU64(AsI64(id)) == id && AsU64(AsI64(u.jobId)) == u.jobId;
    }
  }

  /** The file's answer, row by row as the database would give it. */
  ghost function AsFromSql(fromFile: map<u64, JobUsage>): map<u64, JobUsage> {
    map id | id in fromFile :: Normalized(fromFile[id])
  }

  /** Both backends give the same history for every sequence of usages: the
      same jobs, and per job the same row once it is normalized as the database
      does, including the merged log ids of all workers. */
  lemma BackendsAgree(us: seq<JobUsage>, f: HistoryFilter, fromFile: map<u64, JobUsage>)
    requires Summarizes(fromFile, us, f)
    requires f.Range? ==> (f.start < TWO_63 <==> f.end < TWO_63)
    ensures Select(UpsertAll(us), f) == AsFromSql(fromFile)
  {
    FiltersAgreeExactly(f);
    var sql := Select(UpsertAll(us), f);
    forall id: u64
      ensures id in sql <==> id in fromFile
      ensures id in sql ==> sql[id] == Normalized(fromFile[id])
    {
      TableIsSummary(us, id);
      assert RowIsSummary(fromFile, us, f, id);
      assert SqlIncludes(f, AsI64(id)) == Includes(f, id);
      if id in fromFile { StoreThenLoad(Summary(us, id)); }
    }
  }

  /** Both backends answer this history alike. */
  ghost predicate SameAnswer(us: seq<JobUsage>, f: HistoryFilter) {
    forall fromFile :: Summarizes(fromFile, us, f) ==> Select(UpsertAll(us), f) == AsFromSql(fromFile)
  }

  /** A filter means the same to both backends on every history exactly when, if
      it is a range, its bounds lie on the same side of 2^63. */
  lemma BackendsAgreeExactly(f: HistoryFilter)
    ensures (forall us :: SameAnswer(us, f)) <==> (f.Range? ==> (f.start < TWO_63 <==> f.end < TWO_63))
  {
    if f.Range? ==> (f.start < TWO_63 <==> f.end < TWO_63) {
      forall us ensures SameAnswer(us, f) {
        forall fromFile | Summarizes(fromFile, us, f) ensures Select(UpsertAll(us), f) == AsFromSql(fromFile) {
          BackendsAgree(us, f, fromFile);
        }
      }
    } else {
      FiltersAgreeExactly(f);
      var id: u64 :| SqlIncludes(f, AsI64(id)) != Includes(f, id);
      OneUsageDiffers(f, Blank(id, map[]));
    }
  }

  /** A usage with nothing in it but a job and log ids. */
  function Blank(id: u64, logs: LogMap): JobUsage {
    JobUsage(id, Texts(None, None, "", "", None, [], map[], false, None, None, None, [], false, None, None, None),
             0, None, None, Pending, 0, 0, 0, 0, 0, None, None, None, Production, logs)
  }

  lemma OneUsageDiffers(f: HistoryFilter, u: JobUsage)
    requires SqlIncludes(f, AsI64(u.jobId)) != Includes(f, u.jobId)
    ensures !SameAnswer([u], f)
  {
    EmptySummarizes(f);
    SummarizesPut(map[], [], u, f);
    assert [] + [u] == [u];
    var fromFile: map<u64, JobUsage> := if Includes(f, u.jobId) then map[][u.jobId := u] else map[];
    SummarySnoc([], u);
    TableIsSummary([u], u.jobId);
    assert u.jobId in Select(UpsertAll([u]), f) <==> u.jobId !in fromFile;
    assert u.jobId in AsFromSql(fromFile) <==> u.jobId in fromFile;
  }

  lemma {:induction false} OfJobMembers(us: seq<JobUsage>, id: u64, u: JobUsage)
    ensures u in OfJob(us, id) <==> u in us && u.jobId == id
  {
    if us != [] {
      var n := |us| - 1;
      OfJobMembers(us[..n], id, u);
      assert us == us[..n] + [us[n]];
    }
  }

  /** Which log ids a history knows for a job does not depend on the order or
      repetition of its usages, though the other columns do. */
  lemma KnownIgnoresOrder(us: seq<JobUsage>, us': seq<JobUsage>, id: u64)
    requires forall u :: u in us <==> u in us'
    requires OfJob(us, id) != []
    ensures OfJob(us', id) != []
    ensures Known(Summary(us, id).logs) == Known(Summary(us', id).logs)
  {
    var mine, mine' := OfJob(us, id), OfJob(us', id);
    forall u ensures u in mine <==> u in mine' {
      OfJobMembers(us, id, u);
      OfJobMembers(us', id, u);
    }
    assert mine[0] in mine';
    forall m ensures m in LogsOf(mine) <==> m in LogsOf(mine') {
      if m in LogsOf(mine) { LogsMember(mine, mine', m); }
      if m in LogsOf(mine') { LogsMember(mine', mine, m); }
    }
    KnownDependsOnReportSet(LogsOf(mine), LogsOf(mine'));
  }

  lemma LogsMember(xs: seq<JobUsage>, ys: seq<JobUsage>, m: LogMap)
    requires forall u :: u in xs ==> u in ys
    requires m in LogsOf(xs)
    ensures m in LogsOf(ys)
  {
    var i :| 0 <= i < |xs| && LogsOf(xs)[i] == m;
    assert xs[i] in ys;
    var j :| 0 <= j < |ys| && ys[j] == xs[i];
    assert LogsOf(ys)[j] == m;
  }
}
