/** Per-minute fixed-window rate limiting, keyed by principal and request class. */
module RateLimit {
  import opened Common

  datatype HttpMethod = GET | POST | PUT | DELETE | PATCH | OTHER

  datatype RequestClass = Read | Mutation | Admin

  datatype Limits = Limits(read: u32, mutation: u32, admin: u32)

  datatype Verdict = Accepted | Limited(retryAfter: nat)

  datatype RateBucket = RateBucket(windowStart: nat, count: u32)

  predicate Contains(s: string, p: string) {
    exists i :: 0 <= i <= |s| && StartsWith(s[i..], p)
  }

  function Classify(m: HttpMethod, path: string, privileged: bool): RequestClass {
    if StartsWith(path, "/api/v1/admin") || (privileged && Contains(path, "/admin")) then Admin
    else if m in {POST, PUT, DELETE, PATCH} then Mutation
    else Read
  }

  function LimitFor(l: Limits, c: RequestClass): u32 {
    match c
    case Admin => l.admin
    case Mutation => l.mutation
    case Read => l.read
  }

  function Key(principal: string, c: RequestClass): string {
    principal + ":" + [if c == Read then '0' else if c == Mutation then '1' else '2']
  }

  /** No two (principal, class) pairs share a bucket. */
  lemma KeyInjective(p: string, c: RequestClass, p': string, c': RequestClass)
    requires Key(p, c) == Key(p', c')
    ensures p == p' && c == c'
  {
    var k := Key(p, c);
    assert |p| == |p'| && k[|p| + 1] == Key(p', c')[|p| + 1];
    assert k[..|p|] == p && Key(p', c')[..|p|] == p';
  }

  /** The bucket as a call at `now` finds it: a new window starts empty. */
  function Current(buckets: map<string, RateBucket>, key: string, now: nat): RateBucket {
    if key in buckets && buckets[key].windowStart == now / 60 then buckets[key] else RateBucket(now / 60, 0)
  }

  function Decide(buckets: map<string, RateBucket>, key: string, limit: u32, now: nat): Verdict {
    if limit == 0 || Current(buckets, key, now).count < limit then Accepted else Limited(60 - now % 60)
  }

  function Update(buckets: map<string, RateBucket>, key: string, limit: u32, now: nat): map<string, RateBucket> {
    if limit == 0 then buckets
    else
      var b := Current(buckets, key, now);
      buckets[key := if b.count < limit then b.(count := b.count + 1) else b]
  }

  class ApiRateLimiter {
    const limits: Limits
    var buckets: map<string, RateBucket>

    constructor (l: Limits)
      ensures limits == l && buckets == map[]
    {
      limits, buckets := l, map[];
    }

    /** The entry guard makes calls on one key serial; the counter is a wrapping
        32-bit number. */
    method Check(principal: string, m: HttpMethod, path: string, privileged: bool, now: nat)
      returns (v: Verdict)
      modifies this`buckets
      ensures var c := Classify(m, path, privileged);
              var limit := LimitFor(limits, c);
              && v == Decide(old(buckets), Key(principal, c), limit, now)
              && buckets == Update(old(buckets), Key(principal, c), limit, now)
    {
      var c := Classify(m, path, privileged);
      var limit := LimitFor(limits, c);
      if limit == 0 { return Accepted; }
      var key := Key(principal, c);
      var nowMin := now / 60;
      if key !in buckets {
        buckets := buckets[key := RateBucket(nowMin, 0)];
      }
      var window := buckets[key].windowStart;
      if window != nowMin {
        buckets := buckets[key := RateBucket(nowMin, 0)];
      }
      var prev := buckets[key].count;
      buckets := buckets[key := buckets[key].(count := (prev + 1) % TWO_32)];
      if prev >= limit {
        var retryAfter := 60 - now % 60;
        buckets := buckets[key := buckets[key].(count := (buckets[key].count + TWO_32 - 1) % TWO_32)];
        return Limited(retryAfter);
      }
      return Accepted;
    }
  }

  // ----- whole runs -----

  datatype Call = Call(principal: string, class_: RequestClass, now: nat)

  predicate IsBy(call: Call, p: string, c: RequestClass) {
    call.principal == p && call.class_ == c
  }

  /** The calls of (p, c), in the order in which they take the bucket, never come
      back to a minute that they have left. The clock is read before the bucket is
      taken, so this does not follow from a clock that never goes back. */
  ghost predicate Contiguous(calls: seq<Call>, p: string, c: RequestClass) {
    forall i, j, k :: 0 <= i < j < k < |calls| && IsBy(calls[i], p, c) && IsBy(calls[j], p, c) && IsBy(calls[k], p, c) ==>
      calls[i].now / 60 == calls[k].now / 60 ==> calls[j].now / 60 == calls[i].now / 60
  }

  ghost predicate Monotone(calls: seq<Call>) {
    forall i, j :: 0 <= i < j < |calls| ==> calls[i].now <= calls[j].now
  }

  lemma MonotoneIsContiguous(calls: seq<Call>, p: string, c: RequestClass)
    requires Monotone(calls)
    ensures Contiguous(calls, p, c)
  {
  }

  /** The buckets after the first `k` calls of a run. */
  function Buckets(l: Limits, calls: seq<Call>, k: nat): map<string, RateBucket>
    requires k <= |calls|
  {
    if k == 0 then map[]
    else
      var c := calls[k - 1];
      Update(Buckets(l, calls, k - 1), Key(c.principal, c.class_), LimitFor(l, c.class_), c.now)
  }

  /** The verdict on call `i` of a run. */
  function VerdictAt(l: Limits, calls: seq<Call>, i: nat): Verdict
    requires i < |calls|
  {
    var c := calls[i];
    Decide(Buckets(l, calls, i), Key(c.principal, c.class_), LimitFor(l, c.class_), c.now)
  }

  /** How many of the first `k` calls are by (p, c), have a time in [from, to)
      and were accepted. */
  ghost function Count(l: Limits, calls: seq<Call>, k: nat, p: string, c: RequestClass, from: int, to: int): nat
    requires k <= |calls|
  {
    if k == 0 then 0
    else
      Count(l, calls, k - 1, p, c, from, to) +
      (if IsBy(calls[k - 1], p, c) && from <= calls[k - 1].now < to && VerdictAt(l, calls, k - 1).Accepted?
       then 1 else 0)
  }

  ghost function InMinute(l: Limits, calls: seq<Call>, k: nat, p: string, c: RequestClass, minute: int): nat
    requires k <= |calls|
  {
    Count(l, calls, k, p, c, 60 * minute, 60 * minute + 60)
  }

  lemma InMinuteNext(l: Limits, calls: seq<Call>, k: nat, p: string, c: RequestClass, minute: int)
    requires k < |calls|
    ensures InMinute(l, calls, k + 1, p, c, minute) == InMinute(l, calls, k, p, c, minute) +
              (if IsBy(calls[k], p, c) && calls[k].now / 60 == minute && VerdictAt(l, calls, k).Accepted?
               then 1 else 0)
  {
  }

  lemma {:induction false} NoneInMinute(l: Limits, calls: seq<Call>, k: nat, p: string, c: RequestClass, minute: int)
    requires k <= |calls| && forall j :: 0 <= j < k && IsBy(calls[j], p, c) ==> calls[j].now / 60 != minute
    ensures InMinute(l, calls, k, p, c, minute) == 0
  {
    if k > 0 {
      NoneInMinute(l, calls, k - 1, p, c, minute);
      InMinuteNext(l, calls, k - 1, p, c, minute);
    }
  }

  // ----- the bucket at any moment, for any clock values -----

  /** The last of the first `k` calls that is by (p, c). */
  ghost function LastBy(calls: seq<Call>, k: nat, p: string, c: RequestClass): (r: Option<nat>)
    requires k <= |calls|
    ensures r.Some? ==> r.value < k && IsBy(calls[r.value], p, c)
    ensures r.Some? ==> forall j :: r.value < j < k ==> !IsBy(calls[j], p, c)
    ensures r.None? ==> forall j :: 0 <= j < k ==> !IsBy(calls[j], p, c)
  {
    if k == 0 then None
    else if IsBy(calls[k - 1], p, c) then Some(k - 1)
    else LastBy(calls, k - 1, p, c)
  }

  /** The bucket's window is the minute of the last call by (p, c). */
  ghost predicate WindowIs(l: Limits, calls: seq<Call>, k: nat, p: string, c: RequestClass)
    requires k <= |calls|
  {
    var buckets, key := Buckets(l, calls, k), Key(p, c);
    match LastBy(calls, k, p, c)
    case None => key !in buckets
    case Some(q) => key in buckets && buckets[key].windowStart == calls[q].now / 60
  }

  /** A call by another key leaves the bucket alone. */
  lemma OtherCall(l: Limits, calls: seq<Call>, k: nat, p: string, c: RequestClass)
    requires k < |calls| && !IsBy(calls[k], p, c)
    ensures var before, after, key := Buckets(l, calls, k), Buckets(l, calls, k + 1), Key(p, c);
            (key in after <==> key in before) && (key in before ==> after[key] == before[key])
  {
    if Key(calls[k].principal, calls[k].class_) == Key(p, c) {
      KeyInjective(calls[k].principal, calls[k].class_, p, c);
    }
  }

  lemma {:induction false} WindowTracks(l: Limits, calls: seq<Call>, k: nat, p: string, c: RequestClass)
    requires k <= |calls| && LimitFor(l, c) > 0
    ensures WindowIs(l, calls, k, p, c)
  {
    if k > 0 {
      WindowTracks(l, calls, k - 1, p, c);
      if !IsBy(calls[k - 1], p, c) { OtherCall(l, calls, k - 1, p, c); }
    }
  }

  /** A call that opens a new block of equal minutes is accepted. */
  lemma BlockStartAccepted(l: Limits, calls: seq<Call>, k: nat, p: string, c: RequestClass)
    requires k < |calls| && IsBy(calls[k], p, c) && LimitFor(l, c) > 0
    requires var q := LastBy(calls, k, p, c); q.Some? ==> calls[q.value].now / 60 != calls[k].now / 60
    ensures VerdictAt(l, calls, k).Accepted?
  {
    WindowTracks(l, calls, k, p, c);
  }

  // ----- the quota, while no minute is left and entered again -----

  /** The bucket counts the acceptances of its window. */
  ghost predicate BucketCounts(l: Limits, calls: seq<Call>, k: nat, p: string, c: RequestClass)
    requires k <= |calls|
  {
    var buckets, key := Buckets(l, calls, k), Key(p, c);
    && (forall minute :: InMinute(l, calls, k, p, c, minute) <= LimitFor(l, c))
    && (key in buckets ==> buckets[key].count == InMinute(l, calls, k, p, c, buckets[key].windowStart))
  }

  /** What a call finds in its bucket are the acceptances of its minute. */
  lemma CurrentCounts(l: Limits, calls: seq<Call>, k: nat, p: string, c: RequestClass)
    requires k < |calls| && IsBy(calls[k], p, c) && LimitFor(l, c) > 0
    requires Contiguous(calls, p, c) && BucketCounts(l, calls, k, p, c)
    ensures Current(Buckets(l, calls, k), Key(p, c), calls[k].now).count ==
            InMinute(l, calls, k, p, c, calls[k].now / 60)
  {
    WindowTracks(l, calls, k, p, c);
    var q, minute := LastBy(calls, k, p, c), calls[k].now / 60;
    if q.None? || calls[q.value].now / 60 != minute {
      forall j | 0 <= j < k && IsBy(calls[j], p, c) ensures calls[j].now / 60 != minute {
        assert j <= q.value;
      }
      NoneInMinute(l, calls, k, p, c, minute);
    }
  }

  lemma OwnCallCounts(l: Limits, calls: seq<Call>, k: nat, p: string, c: RequestClass)
    requires k < |calls| && IsBy(calls[k], p, c) && LimitFor(l, c) > 0
    requires Contiguous(calls, p, c) && BucketCounts(l, calls, k, p, c)
    ensures BucketCounts(l, calls, k + 1, p, c)
  {
    CurrentCounts(l, calls, k, p, c);
    var next := k + 1;
    forall minute ensures InMinute(l, calls, next, p, c, minute) <= LimitFor(l, c) {
      InMinuteNext(l, calls, k, p, c, minute);
      assert InMinute(l, calls, k, p, c, minute) <= LimitFor(l, c);
    }
    InMinuteNext(l, calls, k, p, c, calls[k].now / 60);
  }

  lemma OtherCallCounts(l: Limits, calls: seq<Call>, k: nat, p: string, c: RequestClass)
    requires k < |calls| && !IsBy(calls[k], p, c) && BucketCounts(l, calls, k, p, c)
    ensures BucketCounts(l, calls, k + 1, p, c)
  {
    OtherCall(l, calls, k, p, c);
    var next := k + 1;
    forall minute ensures InMinute(l, calls, next, p, c, minute) == InMinute(l, calls, k, p, c, minute) {
      InMinuteNext(l, calls, k, p, c, minute);
    }
  }

  lemma {:induction false} BucketsTrack(l: Limits, calls: seq<Call>, k: nat, p: string, c: RequestClass)
    requires k <= |calls| && Contiguous(calls, p, c) && LimitFor(l, c) > 0
    ensures BucketCounts(l, calls, k, p, c)
  {
    if k > 0 {
      BucketsTrack(l, calls, k - 1, p, c);
      if IsBy(calls[k - 1], p, c) {
        OwnCallCounts(l, calls, k - 1, p, c);
      } else {
        OtherCallCounts(l, calls, k - 1, p, c);
      }
    }
  }

  /** No (principal, class) gets more than its limit in any calendar minute. */
  lemma MinuteQuota(l: Limits, calls: seq<Call>, k: nat, p: string, c: RequestClass, minute: int)
    requires k <= |calls| && Contiguous(calls, p, c) && LimitFor(l, c) > 0
    ensures InMinute(l, calls, k, p, c, minute) <= LimitFor(l, c)
  {
    BucketsTrack(l, calls, k, p, c);
  }

  // ----- exactly when the quota holds -----

  ghost predicate Quota(l: Limits, calls: seq<Call>, p: string, c: RequestClass) {
    forall minute :: InMinute(l, calls, |calls|, p, c, minute) <= LimitFor(l, c)
  }

  /** Goes back from a call to the first one of its block. */
  lemma {:induction false} BlockStart(calls: seq<Call>, k: nat, p: string, c: RequestClass) returns (b: nat)
    requires k < |calls| && IsBy(calls[k], p, c)
    ensures b <= k && IsBy(calls[b], p, c) && calls[b].now / 60 == calls[k].now / 60
    ensures forall j :: b <= j <= k && IsBy(calls[j], p, c) ==> calls[j].now / 60 == calls[k].now / 60
    ensures var q := LastBy(calls, b, p, c); q.Some? ==> calls[q.value].now / 60 != calls[b].now / 60
    decreases k
  {
    var q := LastBy(calls, k, p, c);
    b := k;
    if q.Some? && calls[q.value].now / 60 == calls[k].now / 60 {
      b := BlockStart(calls, q.value, p, c);
    }
  }

  lemma {:induction false} CountAtLeast(l: Limits, calls: seq<Call>, n: nat, a: nat, b: nat, p: string, c: RequestClass, minute: int)
    requires a < b < n <= |calls| && IsBy(calls[a], p, c) && IsBy(calls[b], p, c)
    requires calls[a].now / 60 == minute == calls[b].now / 60
    requires VerdictAt(l, calls, a).Accepted? && VerdictAt(l, calls, b).Accepted?
    ensures InMinute(l, calls, n, p, c, minute) >= 2
    decreases n
  {
    InMinuteNext(l, calls, n - 1, p, c, minute);
    if n - 1 > b { CountAtLeast(l, calls, n - 1, a, b, p, c, minute); }
    else { CountOne(l, calls, n - 1, a, p, c, minute); }
  }

  lemma {:induction false} CountOne(l: Limits, calls: seq<Call>, n: nat, a: nat, p: string, c: RequestClass, minute: int)
    requires a < n <= |calls| && IsBy(calls[a], p, c) && calls[a].now / 60 == minute
    requires VerdictAt(l, calls, a).Accepted?
    ensures InMinute(l, calls, n, p, c, minute) >= 1
    decreases n
  {
    InMinuteNext(l, calls, n - 1, p, c, minute);
    if n - 1 > a { CountOne(l, calls, n - 1, a, p, c, minute); }
  }

  /** With a limit of one, a minute that is left and entered again gets two. */
  lemma ReenteredExceeds(calls: seq<Call>, p: string, c: RequestClass, i: nat, j: nat, k: nat)
    requires i < j < k < |calls| && IsBy(calls[i], p, c) && IsBy(calls[j], p, c) && IsBy(calls[k], p, c)
    requires calls[i].now / 60 == calls[k].now / 60 != calls[j].now / 60
    ensures InMinute(Limits(1, 1, 1), calls, |calls|, p, c, calls[i].now / 60) >= 2
  {
    var l := Limits(1, 1, 1);
    var a := BlockStart(calls, i, p, c);
    var b := BlockStart(calls, k, p, c);
    BlockStartAccepted(l, calls, a, p, c);
    BlockStartAccepted(l, calls, b, p, c);
    CountAtLeast(l, calls, |calls|, a, b, p, c, calls[i].now / 60);
  }

  /** For every run, whatever its clock values: the quota of (p, c) holds under all
      limits exactly when its calls never come back to a minute they have left. */
  lemma QuotaExactly(calls: seq<Call>, p: string, c: RequestClass)
    ensures (forall l | LimitFor(l, c) > 0 :: Quota(l, calls, p, c)) <==> Contiguous(calls, p, c)
  {
    if Contiguous(calls, p, c) {
      forall l | LimitFor(l, c) > 0 ensures Quota(l, calls, p, c) { BucketsTrack(l, calls, |calls|, p, c); }
    } else {
      var i, j, k :| 0 <= i < j < k < |calls| && IsBy(calls[i], p, c) && IsBy(calls[j], p, c) && IsBy(calls[k], p, c)
                     && calls[i].now / 60 == calls[k].now / 60 && calls[j].now / 60 != calls[i].now / 60;
      ReenteredExceeds(calls, p, c, i, j, k);
      assert !Quota(Limits(1, 1, 1), calls, p, c);
    }
  }

  /** Every refusal comes exactly when the minute's quota is exactly used up. */
  ghost predicate RefusesRightly(l: Limits, calls: seq<Call>, p: string, c: RequestClass) {
    forall i: nat :: i < |calls| && IsBy(calls[i], p, c) ==>
      (VerdictAt(l, calls, i).Limited? <==> InMinute(l, calls, i, p, c, calls[i].now / 60) == LimitFor(l, c))
  }

  lemma {:induction false} RightlyKeepsQuota(l: Limits, calls: seq<Call>, k: nat, p: string, c: RequestClass, minute: int)
    requires k <= |calls| && RefusesRightly(l, calls, p, c)
    ensures InMinute(l, calls, k, p, c, minute) <= LimitFor(l, c)
  {
    if k > 0 {
      RightlyKeepsQuota(l, calls, k - 1, p, c, minute);
      InMinuteNext(l, calls, k - 1, p, c, minute);
    }
  }

  /** The same condition is exact for refusals. */
  lemma RefusalsExactly(calls: seq<Call>, p: string, c: RequestClass)
    ensures (forall l | LimitFor(l, c) > 0 :: RefusesRightly(l, calls, p, c)) <==> Contiguous(calls, p, c)
  {
    if Contiguous(calls, p, c) {
      forall l | LimitFor(l, c) > 0 ensures RefusesRightly(l, calls, p, c) {
        forall i: nat | i < |calls| && IsBy(calls[i], p, c)
          ensures VerdictAt(l, calls, i).Limited? <==> InMinute(l, calls, i, p, c, calls[i].now / 60) == LimitFor(l, c)
        {
          RefusedExactly(l, calls, i);
        }
      }
    }
    if forall l | LimitFor(l, c) > 0 :: RefusesRightly(l, calls, p, c) {
      forall l | LimitFor(l, c) > 0 ensures Quota(l, calls, p, c) {
        forall minute ensures InMinute(l, calls, |calls|, p, c, minute) <= LimitFor(l, c) {
          RightlyKeepsQuota(l, calls, |calls|, p, c, minute);
        }
      }
      QuotaExactly(calls, p, c);
    }
  }

  /** Three calls at one key that take the bucket in another order than they read
      the clock: with a limit of one, the first and the third are accepted, both in
      the same minute. */
  lemma LateCallResets(p: string)
    ensures var calls := [Call(p, Read, 60), Call(p, Read, 59), Call(p, Read, 60)];
            InMinute(Limits(1, 1, 1), calls, 3, p, Read, 1) == 2
  {
    var calls := [Call(p, Read, 60), Call(p, Read, 59), Call(p, Read, 60)];
    ReenteredExceeds(calls, p, Read, 0, 1, 2);
    AtMostOnePerCall(calls, p);
  }

  lemma AtMostOnePerCall(calls: seq<Call>, p: string)
    requires |calls| == 3 && calls[1].now / 60 != 1
    ensures InMinute(Limits(1, 1, 1), calls, 3, p, Read, 1) <= 2
  {
    var l := Limits(1, 1, 1);
    InMinuteNext(l, calls, 0, p, Read, 1);
    InMinuteNext(l, calls, 1, p, Read, 1);
    InMinuteNext(l, calls, 2, p, Read, 1);
  }

  lemma {:induction false} CountWithin(l: Limits, calls: seq<Call>, k: nat, p: string, c: RequestClass,
                                       from: int, mid: int, to: int, lo: int, hi: int)
    requires k <= |calls| && lo <= from <= to <= hi && lo <= mid <= hi
    ensures Count(l, calls, k, p, c, from, to) <=
            Count(l, calls, k, p, c, lo, mid) + Count(l, calls, k, p, c, mid, hi)
  {
    if k > 0 { CountWithin(l, calls, k - 1, p, c, from, mid, to, lo, hi); }
  }

  /** Nor more than twice the limit in any sixty consecutive seconds. */
  lemma SlidingQuota(l: Limits, calls: seq<Call>, k: nat, p: string, c: RequestClass, from: int)
    requires k <= |calls| && Contiguous(calls, p, c) && LimitFor(l, c) > 0
    ensures Count(l, calls, k, p, c, from, from + 60) <= 2 * LimitFor(l, c)
  {
    var m := from / 60;
    MinuteQuota(l, calls, k, p, c, m);
    MinuteQuota(l, calls, k, p, c, m + 1);
    CountWithin(l, calls, k, p, c, from, 60 * m + 60, from + 60, 60 * m, 60 * m + 120);
  }

  /** A call is refused exactly when its minute's quota is exactly used up. */
  lemma RefusedExactly(l: Limits, calls: seq<Call>, i: nat)
    requires i < |calls| && LimitFor(l, calls[i].class_) > 0
    requires Contiguous(calls, calls[i].principal, calls[i].class_)
    ensures var c := calls[i];
            VerdictAt(l, calls, i).Limited? <==>
            InMinute(l, calls, i, c.principal, c.class_, c.now / 60) == LimitFor(l, c.class_)
  {
    var c := calls[i];
    BucketsTrack(l, calls, i, c.principal, c.class_);
    CurrentCounts(l, calls, i, c.principal, c.class_);
  }

  /** A refusal names a wait of 1 to 60 seconds that ends on the first second of
      the next window. */
  lemma RetryAfterMeaning(l: Limits, calls: seq<Call>, i: nat)
    requires i < |calls| && VerdictAt(l, calls, i).Limited?
    ensures var now, wait := calls[i].now, VerdictAt(l, calls, i).retryAfter;
            1 <= wait <= 60 && now + wait == 60 * (now / 60 + 1)
  {
  }

  lemma {:induction false} NoneLater(l: Limits, calls: seq<Call>, k: nat, p: string, c: RequestClass, from: int, to: int)
    requires k <= |calls|
    requires forall j :: 0 <= j < k && IsBy(calls[j], p, c) ==> calls[j].now < from
    ensures Count(l, calls, k, p, c, from, to) == 0
  {
    if k > 0 { NoneLater(l, calls, k - 1, p, c, from, to); }
  }

  /** Whoever waits at least that long and calls next is accepted, whatever the
      clock does otherwise. */
  lemma WaitingHelps(l: Limits, calls: seq<Call>, i: nat, k: nat)
    requires i < k < |calls| && VerdictAt(l, calls, i).Limited?
    requires IsBy(calls[k], calls[i].principal, calls[i].class_)
    requires calls[k].now >= calls[i].now + VerdictAt(l, calls, i).retryAfter
    requires forall j :: i < j < k ==> !IsBy(calls[j], calls[i].principal, calls[i].class_)
    ensures VerdictAt(l, calls, k).Accepted?
  {
    var c := calls[k];
    RetryAfterMeaning(l, calls, i);
    assert LastBy(calls, k, c.principal, c.class_) == Some(i);
    BlockStartAccepted(l, calls, k, c.principal, c.class_);
  }

  // ----- the factor of two is reached -----

  /** All calls from `i` up to `k` are the same one, in a minute not used before. */
  ghost predicate BurstAt(l: Limits, calls: seq<Call>, i: nat, k: nat, call: Call) {
    && Monotone(calls) && i <= k <= |calls| && k - i <= LimitFor(l, call.class_)
    && (forall j :: i <= j < k ==> calls[j] == call)
    && (forall j :: 0 <= j < i ==> calls[j].now < 60 * (call.now / 60))
  }

  lemma {:induction false} BurstInMinute(l: Limits, calls: seq<Call>, i: nat, k: nat, call: Call)
    requires BurstAt(l, calls, i, k, call)
    ensures InMinute(l, calls, k, call.principal, call.class_, call.now / 60) == k - i
    decreases k
  {
    var lo := 60 * (call.now / 60);
    if k == i {
      NoneLater(l, calls, i, call.principal, call.class_, lo, lo + 60);
    } else {
      BurstInMinute(l, calls, i, k - 1, call);
      OneMore(l, calls, k - 1, call, lo, lo + 60);
    }
  }

  /** Every call of a burst is accepted until the limit is reached. */
  lemma {:induction false} BurstAccepted(l: Limits, calls: seq<Call>, i: nat, k: nat, call: Call, from: int, to: int)
    requires BurstAt(l, calls, i, k, call) && from <= call.now < to
    ensures Count(l, calls, k, call.principal, call.class_, from, to) ==
            Count(l, calls, i, call.principal, call.class_, from, to) + k - i
    decreases k
  {
    if i < k {
      BurstAccepted(l, calls, i, k - 1, call, from, to);
      BurstInMinute(l, calls, i, k - 1, call);
      OneMore(l, calls, k - 1, call, from, to);
    }
  }

  lemma OneMore(l: Limits, calls: seq<Call>, k: nat, call: Call, from: int, to: int)
    requires k < |calls| && Monotone(calls) && calls[k] == call && from <= call.now < to
    requires InMinute(l, calls, k, call.principal, call.class_, call.now / 60) < LimitFor(l, call.class_)
    ensures Count(l, calls, k + 1, call.principal, call.class_, from, to) ==
            Count(l, calls, k, call.principal, call.class_, from, to) + 1
  {
    MonotoneIsContiguous(calls, call.principal, call.class_);
    RefusedExactly(l, calls, k);
  }

  lemma FromStart(l: Limits, calls: seq<Call>, n: nat, call: Call, from: int, to: int)
    requires Monotone(calls) && n <= |calls| && n <= LimitFor(l, call.class_) && from <= call.now < to
    requires forall j :: 0 <= j < n ==> calls[j] == call
    ensures Count(l, calls, n, call.principal, call.class_, from, to) == n
  {
    BurstAccepted(l, calls, 0, n, call, from, to);
  }

  lemma FromMinute(l: Limits, calls: seq<Call>, i: nat, n: nat, call: Call, from: int, to: int)
    requires Monotone(calls) && i + n <= |calls| && n <= LimitFor(l, call.class_) && from <= call.now < to
    requires forall j :: i <= j < i + n ==> calls[j] == call
    requires call.now % 60 == 0 && forall j :: 0 <= j < i ==> calls[j].now < call.now
    ensures Count(l, calls, i + n, call.principal, call.class_, from, to) ==
            Count(l, calls, i, call.principal, call.class_, from, to) + n
  {
    BurstAccepted(l, calls, i, i + n, call, from, to);
  }

  lemma BothBursts(l: Limits, calls: seq<Call>, n: nat, early: Call, late: Call, from: int, to: int)
    requires Monotone(calls) && |calls| == 2 * n && n <= LimitFor(l, late.class_)
    requires IsBy(early, late.principal, late.class_) && from <= early.now < late.now < to && late.now % 60 == 0
    requires forall j :: 0 <= j < n ==> calls[j] == early
    requires forall j :: n <= j < n + n ==> calls[j] == late
    ensures Count(l, calls, |calls|, late.principal, late.class_, from, to) == 2 * n
  {
    FromStart(l, calls, n, early, from, to);
    FromMinute(l, calls, n, n, late, from, to);
  }

  ghost function TwoBursts(p: string, c: RequestClass, n: nat, t: nat): (calls: seq<Call>)
    requires t > 0
    ensures |calls| == 2 * n && Monotone(calls)
    ensures forall i :: 0 <= i < 2 * n ==> calls[i] == Call(p, c, if i < n then t - 1 else t)
  {
    seq(2 * n, i => Call(p, c, if i < n then t - 1 else t))
  }

  /** For every class with a limit, and at every minute boundary `t`, there is a
      run with twice the limit accepted within two consecutive seconds, so the
      factor cannot be improved. */
  lemma FactorTwoReached(l: Limits, p: string, c: RequestClass, t: nat) returns (calls: seq<Call>)
    requires t > 0 && t % 60 == 0
    ensures Monotone(calls) && Count(l, calls, |calls|, p, c, t - 1, t + 1) == 2 * LimitFor(l, c)
  {
    calls := TwoBursts(p, c, LimitFor(l, c), t);
    BothBursts(l, calls, LimitFor(l, c), Call(p, c, t - 1), Call(p, c, t), t - 1, t + 1);
  }

  // ----- from requests to limits -----

  datatype Request = Request(principal: string, method_: HttpMethod, path: string, privileged: bool, now: nat)

  /** The calls that a run of requests makes. */
  function Calls(reqs: seq<Request>): (calls: seq<Call>)
    ensures |calls| == |reqs|
    ensures forall i :: 0 <= i < |reqs| ==>
              calls[i] == Call(reqs[i].principal, Classify(reqs[i].method_, reqs[i].path, reqs[i].privileged), reqs[i].now)
  {
    seq(|reqs|, i requires 0 <= i < |reqs| =>
      Call(reqs[i].principal, Classify(reqs[i].method_, reqs[i].path, reqs[i].privileged), reqs[i].now))
  }

  /** The answer to request `i` of a run. */
  function Answer(l: Limits, reqs: seq<Request>, i: nat): Verdict
    requires i < |reqs|
  {
    VerdictAt(l, Calls(reqs), i)
  }

  /** The text occurs in the path, with something in front of it and behind it. */
  ghost predicate Mentions(path: string, text: string) {
    exists before, after :: path == before + text + after
  }

  datatype Kind = Administrative | Changing | Reading

  /** Administrative requests are those below the administrative prefix, and those
      of privileged users that mention it anywhere; of the others, POST, PUT, DELETE
      and PATCH change something. */
  ghost predicate IsKind(r: Request, kind: Kind) {
    var admin := (|r.path| >= 13 && r.path[..13] == "/api/v1/admin")
                 || (r.privileged && Mentions(r.path, "/admin"));
    var changes := r.method_ == POST || r.method_ == PUT || r.method_ == DELETE || r.method_ == PATCH;
    match kind
    case Administrative => admin
    case Changing => !admin && changes
    case Reading => !admin && !changes
  }

  /** The requests of one kind by one principal. */
  ghost predicate IsFrom(r: Request, p: string, kind: Kind) {
    r.principal == p && IsKind(r, kind)
  }

  /** How many of the first `k` of them fall in the minute and were accepted. */
  ghost function AcceptedIn(l: Limits, reqs: seq<Request>, k: nat, p: string, kind: Kind, minute: int): nat
    requires k <= |reqs|
  {
    if k == 0 then 0
    else AcceptedIn(l, reqs, k - 1, p, kind, minute) +
         (if IsFrom(reqs[k - 1], p, kind) && reqs[k - 1].now / 60 == minute && Answer(l, reqs, k - 1).Accepted? then 1 else 0)
  }

  /** They never come back to a minute that they have left. */
  ghost predicate KeepMinutes(reqs: seq<Request>, p: string, kind: Kind) {
    forall i, j, k :: 0 <= i < j < k < |reqs| && IsFrom(reqs[i], p, kind) && IsFrom(reqs[j], p, kind) && IsFrom(reqs[k], p, kind) ==>
      reqs[i].now / 60 == reqs[k].now / 60 ==> reqs[j].now / 60 == reqs[i].now / 60
  }

  ghost function ClassOf(kind: Kind): RequestClass {
    match kind
    case Administrative => Admin
    case Changing => Mutation
    case Reading => Read
  }

  lemma ContainsIsMentions(path: string, text: string)
    ensures Contains(path, text) <==> Mentions(path, text)
  {
    if i :| 0 <= i <= |path| && StartsWith(path[i..], text) {
      assert path == path[..i] + text + path[i + |text|..];
    }
    if before, after :| path == before + text + after {
      assert path[|before|..] == text + after;
      assert StartsWith(path[|before|..], text);
    }
  }

  lemma KindIsClass(r: Request, kind: Kind)
    ensures IsKind(r, kind) <==> Classify(r.method_, r.path, r.privileged) == ClassOf(kind)
  {
    ContainsIsMentions(r.path, "/admin");
    assert |"/api/v1/admin"| == 13;
  }

  lemma {:induction false} AcceptedInIs(l: Limits, reqs: seq<Request>, k: nat, p: string, kind: Kind, minute: int)
    requires k <= |reqs|
    ensures AcceptedIn(l, reqs, k, p, kind, minute) == InMinute(l, Calls(reqs), k, p, ClassOf(kind), minute)
  {
    if k > 0 {
      AcceptedInIs(l, reqs, k - 1, p, kind, minute);
      InMinuteNext(l, Calls(reqs), k - 1, p, ClassOf(kind), minute);
      KindIsClass(reqs[k - 1], kind);
    }
  }

  lemma KeepsIsContiguous(reqs: seq<Request>, p: string, kind: Kind)
    requires KeepMinutes(reqs, p, kind)
    ensures Contiguous(Calls(reqs), p, ClassOf(kind))
  {
    forall i | 0 <= i < |reqs| ensures IsFrom(reqs[i], p, kind) <==> IsBy(Calls(reqs)[i], p, ClassOf(kind)) {
      KindIsClass(reqs[i], kind);
    }
  }

  /** What the limits mean: per principal and minute at most `admin` administrative
      requests, at most `mutation` changing ones and at most `read` others are
      accepted, where zero stands for no limit. */
  lemma RequestQuota(l: Limits, reqs: seq<Request>, k: nat, p: string, kind: Kind, minute: int)
    requires k <= |reqs| && KeepMinutes(reqs, p, kind)
    ensures kind == Administrative && l.admin > 0 ==> AcceptedIn(l, reqs, k, p, kind, minute) <= l.admin
    ensures kind == Changing && l.mutation > 0 ==> AcceptedIn(l, reqs, k, p, kind, minute) <= l.mutation
    ensures kind == Reading && l.read > 0 ==> AcceptedIn(l, reqs, k, p, kind, minute) <= l.read
  {
    KeepsIsContiguous(reqs, p, kind);
    AcceptedInIs(l, reqs, k, p, kind, minute);
    if LimitFor(l, ClassOf(kind)) > 0 { MinuteQuota(l, Calls(reqs), k, p, ClassOf(kind), minute); }
  }

  /** And a request is refused exactly when that number is reached. */
  lemma RequestRefused(l: Limits, reqs: seq<Request>, i: nat, kind: Kind)
    requires i < |reqs| && IsKind(reqs[i], kind) && KeepMinutes(reqs, reqs[i].principal, kind)
    ensures var n := AcceptedIn(l, reqs, i, reqs[i].principal, kind, reqs[i].now / 60);
            Answer(l, reqs, i).Limited? <==>
            match kind
            case Administrative => l.admin > 0 && n == l.admin
            case Changing => l.mutation > 0 && n == l.mutation
            case Reading => l.read > 0 && n == l.read
  {
    var p, minute := reqs[i].principal, reqs[i].now / 60;
    KindIsClass(reqs[i], kind);
    KeepsIsContiguous(reqs, p, kind);
    AcceptedInIs(l, reqs, i, p, kind, minute);
    if LimitFor(l, ClassOf(kind)) > 0 { RefusedExactly(l, Calls(reqs), i); }
  }
}
