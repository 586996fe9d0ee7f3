/** The resilient accounting store: a primary store that may fail, a buffer of
    records to retry, and a local file as a fallback. */
module RetryBuffer {
  import opened Common

  const BUFFER_CAP := 1000

  /** Records are numbered by the call that brought them. */
  type Rec = nat

  /** `failed` and `toRetry` belong to the retry pass under way: the records it
      could not write, and those it has yet to try. The last three fields are
      the history of the run. */
  datatype Store = Store(
    buffer: seq<Rec>, toRetry: seq<Rec>, failed: seq<Rec>, inPass: bool,
    primary: seq<Rec>, local: seq<Rec>, dropped: seq<Rec>, calls: nat)

  datatype Event =
    | Record(primaryOk: bool, localOk: bool)
    | Drain
    | Retry(ok: bool)
    | EndPass

  function Start(): Store {
    Store([], [], [], false, [], [], [], 0)
  }

  /** One step of the store. A pass drains the buffer, retries each record, and
      puts the failures back in front; `Record` calls may come at any point. */
  function Step(s: Store, e: Event): Store {
    match e
    case Record(true, _) => s.(primary := s.primary + [s.calls], calls := s.calls + 1)
    case Record(false, localOk) =>
      var s' := s.(local := if localOk then s.local + [s.calls] else s.local, calls := s.calls + 1);
      if |s.buffer| < BUFFER_CAP then s'.(buffer := s.buffer + [s.calls])
      else s'.(buffer := s.buffer[1..] + [s.calls], dropped := s.dropped + [s.buffer[0]])
    case Drain => if s.inPass then s else s.(buffer := [], toRetry := s.buffer, failed := [], inPass := true)
    case Retry(ok) =>
      if !s.inPass || s.toRetry == [] then s
      else if ok then s.(toRetry := s.toRetry[1..], primary := s.primary + [s.toRetry[0]])
      else s.(toRetry := s.toRetry[1..], failed := s.failed + [s.toRetry[0]])
    case EndPass =>
      if !s.inPass || s.toRetry != [] then s
      else s.(buffer := s.failed + s.buffer, failed := [], inPass := false)
  }

  function Run(events: seq<Event>): Store {
    if events == [] then Start() else Step(Run(events[..|events| - 1]), events[|events| - 1])
  }

  class ResilientAccountingStore {
    var buffer: seq<Rec>
    var toRetry: seq<Rec>
    var failed: seq<Rec>
    var inPass: bool
    ghost var primary: seq<Rec>
    ghost var local: seq<Rec>
    ghost var dropped: seq<Rec>
    var calls: nat

    ghost function View(): Store
      reads this
    {
      Store(buffer, toRetry, failed, inPass, primary, local, dropped, calls)
    }

    constructor ()
      ensures View() == Start()
    {
      buffer, toRetry, failed, inPass, calls := [], [], [], false, 0;
      primary, local, dropped := [], [], [];
    }

    method RecordJob(primaryOk: bool, localOk: bool)
      modifies this
      ensures View() == Step(old(View()), Record(primaryOk, localOk))
      ensures primaryOk ==> primary == old(primary) + [old(calls)] && buffer == old(buffer) && local == old(local)
      ensures !primaryOk ==>
                && primary == old(primary) && local == (if localOk then old(local) + [old(calls)] else old(local))
                && buffer == (if |old(buffer)| < 1000 then old(buffer) else old(buffer)[1..]) + [old(calls)]
    {
      var record := calls;
      calls := calls + 1;
      if primaryOk {
        primary := primary + [record];
        return;
      }
      if |buffer| < BUFFER_CAP {
        buffer := buffer + [record];
      } else {
        dropped := dropped + [buffer[0]];
        buffer := buffer[1..];
        buffer := buffer + [record];
      }
      if localOk { local := local + [record]; }
    }

    method DrainBuffer()
      requires !inPass
      modifies this
      ensures View() == Step(old(View()), Drain)
      ensures inPass && toRetry == old(buffer) && buffer == []
    {
      toRetry, buffer, failed, inPass := buffer, [], [], true;
    }

    method RetryNext(ok: bool)
      requires inPass && toRetry != []
      modifies this
      ensures View() == Step(old(View()), Retry(ok))
      ensures toRetry == old(toRetry)[1..] && buffer == old(buffer)
      ensures primary == old(primary) + (if ok then [old(toRetry)[0]] else [])
      ensures failed == old(failed) + (if ok then [] else [old(toRetry)[0]])
    {
      var record := toRetry[0];
      toRetry := toRetry[1..];
      if ok { primary := primary + [record]; } else { failed := failed + [record]; }
    }

    /** Pushes the failures to the front, last one first. */
    method FinishPass()
      requires inPass && toRetry == []
      modifies this
      ensures View() == Step(old(View()), EndPass)
      ensures !inPass && buffer == old(failed) + old(buffer)
    {
      var k := |failed|;
      while k > 0
        invariant 0 <= k <= |failed|
        invariant buffer == failed[k..] + old(buffer)
        invariant View() == old(View()).(buffer := buffer)
      {
        k := k - 1;
        buffer := [failed[k]] + buffer;
      }
      failed, inPass := [], false;
    }
  }

  // ----- whole runs -----

  /** Everything that still waits for the primary, oldest first. */
  ghost function Waiting(s: Store): seq<Rec> {
    s.failed + s.toRetry + s.buffer
  }

  /** Each number below `n` exactly once. */
  ghost function UpTo(n: nat): multiset<Rec> {
    if n == 0 then multiset{} else UpTo(n - 1) + multiset{n - 1}
  }

  /** The `calls` records so far are in the primary, waiting in order, or dropped. */
  ghost predicate Held(primary: seq<Rec>, waiting: seq<Rec>, dropped: seq<Rec>, calls: nat) {
    && multiset(primary) + multiset(waiting) + multiset(dropped) == UpTo(calls)
    && Ascending(waiting) && (forall r :: r in waiting ==> r < calls)
  }

  /** `waiting` is what waits in the state. */
  ghost predicate InvWith(s: Store, waiting: seq<Rec>) {
    Held(s.primary, waiting, s.dropped, s.calls) && (!s.inPass ==> s.toRetry == [] && s.failed == [])
  }

  ghost predicate Inv(s: Store) {
    InvWith(s, Waiting(s))
  }

  lemma HeldDirect(primary: seq<Rec>, waiting: seq<Rec>, dropped: seq<Rec>, calls: nat)
    requires Held(primary, waiting, dropped, calls)
    ensures Held(primary + [calls], waiting, dropped, calls + 1)
  {
    assert UpTo(calls + 1) == UpTo(calls) + multiset{calls};
  }

  lemma HeldNew(primary: seq<Rec>, waiting: seq<Rec>, dropped: seq<Rec>, calls: nat)
    requires Held(primary, waiting, dropped, calls)
    ensures Held(primary, waiting + [calls], dropped, calls + 1)
  {
    assert UpTo(calls + 1) == UpTo(calls) + multiset{calls};
    assert forall i :: 0 <= i < |waiting| ==> waiting[i] in waiting;
  }

  /** A waiting record may leave for the primary or be dropped. */
  lemma HeldLeave(primary: seq<Rec>, xs: seq<Rec>, x: Rec, ys: seq<Rec>, dropped: seq<Rec>, calls: nat)
    requires Held(primary, xs + [x] + ys, dropped, calls)
    ensures Held(primary + [x], xs + ys, dropped, calls)
    ensures Held(primary, xs + ys, dropped + [x], calls)
  {
    AscendingWithout(xs, x, ys);
    assert multiset(xs + [x] + ys) == multiset(xs + ys) + multiset{x};
    forall r | r in xs + ys ensures r < calls { assert r in xs + [x] + ys; }
  }

  lemma AscendingWithout(xs: seq<Rec>, x: Rec, ys: seq<Rec>)
    requires Ascending(xs + [x] + ys)
    ensures Ascending(xs + ys)
  {
    var all, rest := xs + [x] + ys, xs + ys;
    forall i, j | 0 <= i < j < |rest| ensures rest[i] < rest[j] {
      var i', j' := if i < |xs| then i else i + 1, if j < |xs| then j else j + 1;
      assert all[i'] == rest[i] && all[j'] == rest[j];
    }
  }

  lemma BufferKeepsInv(s: Store, s': Store)
    requires Inv(s) && Waiting(s') == Waiting(s) + [s.calls]
    requires s'.primary == s.primary && s'.dropped == s.dropped && s'.calls == s.calls + 1
    requires !s'.inPass ==> s'.toRetry == [] && s'.failed == []
    ensures Inv(s')
  {
    HeldNew(s.primary, Waiting(s), s.dropped, s.calls);
  }

  lemma OverflowKeepsInv(s: Store, s': Store, xs: seq<Rec>, x: Rec, ys: seq<Rec>, was: seq<Rec>, now: seq<Rec>)
    requires InvWith(s, was) && was == xs + [x] + ys && now == xs + ys + [s.calls]
    requires s'.failed == s.failed && s'.toRetry == s.toRetry && s'.inPass == s.inPass
    requires s'.dropped == s.dropped + [x] && s'.primary == s.primary && s'.calls == s.calls + 1
    ensures InvWith(s', now)
  {
    HeldOverflow(s.primary, xs, x, ys, s.dropped, s'.dropped, s.calls, was, now);
  }

  lemma WaitingOverflow(s: Store, s': Store) returns (xs: seq<Rec>, x: Rec, ys: seq<Rec>)
    requires s.buffer != [] && s'.failed == s.failed && s'.toRetry == s.toRetry
    requires s'.buffer == s.buffer[1..] + [s.calls]
    ensures x == s.buffer[0] && Waiting(s) == xs + [x] + ys && Waiting(s') == xs + ys + [s.calls]
  {
    xs, x, ys := s.failed + s.toRetry, s.buffer[0], s.buffer[1..];
  }

  lemma HeldOverflow(primary: seq<Rec>, xs: seq<Rec>, x: Rec, ys: seq<Rec>, dropped: seq<Rec>, dropped': seq<Rec>,
                     calls: nat, was: seq<Rec>, now: seq<Rec>)
    requires Held(primary, was, dropped, calls)
    requires was == xs + [x] + ys && now == xs + ys + [calls] && dropped' == dropped + [x]
    ensures Held(primary, now, dropped', calls + 1)
  {
    HeldLeave(primary, xs, x, ys, dropped, calls);
    HeldNew(primary, xs + ys, dropped', calls);
  }

  lemma RetryKeepsInv(s: Store, ok: bool)
    requires Inv(s) && s.inPass && s.toRetry != []
    ensures Inv(Step(s, Retry(ok)))
  {
    var s' := Step(s, Retry(ok));
    var r, rest := s.toRetry[0], s.toRetry[1..] + s.buffer;
    assert Waiting(s) == s.failed + [r] + rest;
    if ok {
      HeldLeave(s.primary, s.failed, r, rest, s.dropped, s.calls);
      assert Waiting(s') == s.failed + rest;
    } else {
      assert Waiting(s') == Waiting(s);
    }
  }

  lemma RecordKeepsInv(s: Store, localOk: bool)
    requires Inv(s)
    ensures Inv(Step(s, Record(false, localOk)))
  {
    var s' := Step(s, Record(false, localOk));
    if |s.buffer| < BUFFER_CAP {
      WaitingNew(s, s');
      BufferKeepsInv(s, s');
    } else {
      var xs, x, ys := WaitingOverflow(s, s');
      OverflowKeepsInv(s, s', xs, x, ys, Waiting(s), Waiting(s'));
    }
  }

  lemma WaitingNew(s: Store, s': Store)
    requires s'.failed == s.failed && s'.toRetry == s.toRetry && s'.buffer == s.buffer + [s.calls]
    ensures Waiting(s') == Waiting(s) + [s.calls]
  {
  }

  /** Starting and ending a pass only move records. */
  lemma WaitingSame(s: Store, e: Event)
    requires (e == Drain || e == EndPass) && (!s.inPass ==> s.toRetry == [] && s.failed == [])
    ensures Waiting(Step(s, e)) == Waiting(s)
  {
  }

  lemma PassKeepsInv(s: Store, e: Event)
    requires Inv(s) && (e == Drain || e == EndPass)
    ensures Inv(Step(s, e))
  {
    WaitingSame(s, e);
    var s' := Step(s, e);
    assert s'.primary == s.primary && s'.dropped == s.dropped && s'.calls == s.calls;
  }

  lemma DirectKeepsInv(s: Store, localOk: bool)
    requires Inv(s)
    ensures Inv(Step(s, Record(true, localOk)))
  {
    HeldDirect(s.primary, Waiting(s), s.dropped, s.calls);
    assert Waiting(Step(s, Record(true, localOk))) == Waiting(s);
  }

  lemma StepKeepsInv(s: Store, e: Event)
    requires Inv(s)
    ensures Inv(Step(s, e))
  {
    match e
    case Record(true, l) => DirectKeepsInv(s, l);
    case Record(false, l) => RecordKeepsInv(s, l);
    case Retry(ok) => if s.inPass && s.toRetry != [] { RetryKeepsInv(s, ok); }
    case _ => PassKeepsInv(s, e);
  }

  /** On every run each record is in the primary, waiting or dropped by
      overflow, exactly once in all; and what waits, in-flight records before
      buffered ones, is in arrival order. */
  lemma {:induction false} Conservation(events: seq<Event>)
    ensures var s := Run(events);
            && multiset(s.primary) + multiset(s.failed + s.toRetry + s.buffer) + multiset(s.dropped)
               == UpTo(s.calls)
            && Ascending(s.failed + s.toRetry + s.buffer)
    ensures Inv(Run(events))
  {
    if events != [] {
      Conservation(events[..|events| - 1]);
      StepKeepsInv(Run(events[..|events| - 1]), events[|events| - 1]);
    }
  }

  /** Event `i` was call `n`, failed on the primary and reached the local file. */
  ghost predicate FallsBackAt(events: seq<Event>, i: nat, n: nat) {
    i < |events| && events[i] == Record(false, true) && Run(events[..i]).calls == n
  }

  lemma FallsBackEarlier(events: seq<Event>, k: nat, i: nat, n: nat)
    requires i < k <= |events|
    ensures FallsBackAt(events, i, n) <==> FallsBackAt(events[..k], i, n)
  {
    assert events[..k][..i] == events[..i];
  }

  ghost predicate FallsBack(events: seq<Event>, n: nat) {
    exists i: nat :: FallsBackAt(events, i, n)
  }

  lemma FallsBackSnoc(events: seq<Event>, k: nat, n: nat)
    requires |events| == k + 1
    ensures FallsBack(events, n) <==> FallsBack(events[..k], n) || FallsBackAt(events, k, n)
  {
    if i: nat :| FallsBackAt(events[..k], i, n) { FallsBackEarlier(events, k, i, n); }
    if i: nat :| FallsBackAt(events, i, n) && i != k { FallsBackEarlier(events, k, i, n); }
  }

  lemma LocalStep(s: Store, e: Event, n: nat)
    ensures n in Step(s, e).local <==> n in s.local || (e == Record(false, true) && s.calls == n)
  {
  }

  /** The local file holds exactly the records whose direct write failed while
      the local write succeeded. */
  lemma {:induction false} LocalHoldsFallbacks(events: seq<Event>, n: nat)
    ensures n in Run(events).local <==> FallsBack(events, n)
  {
    if events != [] {
      var k := |events| - 1;
      LocalHoldsFallbacks(events[..k], n);
      FallsBackSnoc(events, k, n);
      LocalStep(Run(events[..k]), events[k], n);
    }
  }

  // ----- the cap does not bound the buffer -----

  function Repeat(e: Event, n: nat): seq<Event> {
    seq(n, _ => e)
  }

  lemma {:induction false} RunRepeat(events: seq<Event>, e: Event, n: nat)
    requires n > 0
    ensures Run(events + Repeat(e, n)) == Step(Run(events + Repeat(e, n - 1)), e)
  {
    var all := events + Repeat(e, n);
    assert all[..|all| - 1] == events + Repeat(e, n - 1);
  }

  /** Fills an empty buffer up to the cap while a pass is under way. */
  lemma {:induction false} FillDuringPass(events: seq<Event>, n: nat)
    requires n <= BUFFER_CAP && Run(events).buffer == []
    ensures var s, s' := Run(events), Run(events + Repeat(Record(false, true), n));
            |s'.buffer| == n && s'.toRetry == s.toRetry && s'.failed == s.failed && s'.inPass == s.inPass
  {
    if n == 0 {
      assert events + Repeat(Record(false, true), 0) == events;
    } else {
      FillDuringPass(events, n - 1);
      RunRepeat(events, Record(false, true), n);
    }
  }

  /** A pass in which every retry fails moves all it drained to `failed`. */
  lemma {:induction false} FailAll(events: seq<Event>, n: nat)
    requires Run(events).inPass && n <= |Run(events).toRetry|
    ensures var s, s' := Run(events), Run(events + Repeat(Retry(false), n));
            s'.buffer == s.buffer && |s'.failed| == |s.failed| + n && |s'.toRetry| == |s.toRetry| - n && s'.inPass
  {
    if n == 0 {
      assert events + Repeat(Retry(false), 0) == events;
    } else {
      FailAll(events, n - 1);
      RunRepeat(events, Retry(false), n);
    }
  }

  lemma RunSnoc(events: seq<Event>, e: Event)
    ensures Run(events + [e]) == Step(Run(events), e)
  {
    assert (events + [e])[..|events|] == events;
  }

  /** While the primary stays down, a thousand new records per pass are added
      to those put back, so the buffer outgrows every bound. */
  lemma {:induction false} BufferUnbounded(passes: nat) returns (events: seq<Event>)
    ensures |Run(events).buffer| >= passes * BUFFER_CAP && !Run(events).inPass
  {
    if passes == 0 {
      events := [];
    } else {
      var before := BufferUnbounded(passes - 1);
      var n := |Run(before).buffer|;
      var drained := before + [Drain];
      RunSnoc(before, Drain);
      FillDuringPass(drained, BUFFER_CAP);
      var filled := drained + Repeat(Record(false, true), BUFFER_CAP);
      FailAll(filled, n);
      var tried := filled + Repeat(Retry(false), n);
      RunSnoc(tried, EndPass);
      events := tried + [EndPass];
    }
  }

  /** A record is dropped exactly when a direct write fails with 1000 or more records
      in the buffer, and it is older than everything that is buffered then. */
  lemma OverflowDropsOldest(events: seq<Event>, e: Event)
    ensures var s, s' := Run(events), Run(events + [e]);
            if e.Record? && !e.primaryOk && |s.buffer| >= 1000
            then && |s'.dropped| == |s.dropped| + 1 && s'.dropped[..|s.dropped|] == s.dropped
                 && s'.dropped[|s.dropped|] in s.buffer
                 && forall r :: r in s'.buffer ==> s'.dropped[|s.dropped|] < r
            else s'.dropped == s.dropped
  {
    RunSnoc(events, e);
    var s := Run(events);
    if e.Record? && !e.primaryOk && |s.buffer| >= 1000 {
      Conservation(events);
      OldestFirst(s.failed + s.toRetry, s.buffer, s.calls);
    }
  }

  lemma OldestFirst(flight: seq<Rec>, buffer: seq<Rec>, calls: nat)
    requires buffer != [] && Ascending(flight + buffer) && forall r :: r in flight + buffer ==> r < calls
    ensures forall r :: r in buffer[1..] + [calls] ==> buffer[0] < r
  {
    var all, m := flight + buffer, |flight|;
    assert buffer[0] in all;
    forall r | r in buffer[1..] + [calls] ensures buffer[0] < r {
      if r in buffer[1..] {
        var j :| 0 <= j < |buffer| - 1 && buffer[1..][j] == r;
        assert all[m] == buffer[0] && all[m + 1 + j] == r;
      }
    }
  }

  // ----- exactly when the buffer exceeds the cap -----

  /** While a pass is under way the cap does bound the buffer. */
  lemma {:induction false} CappedDuringPass(events: seq<Event>)
    ensures Run(events).inPass ==> |Run(events).buffer| <= BUFFER_CAP
  {
    if events != [] {
      var n := |events| - 1;
      CappedDuringPass(events[..n]);
      CrossesCapOnlyAtEnd(Run(events[..n]), events[n]);
    }
  }

  /** The event ends a pass and puts its failures back. */
  ghost predicate Ends(s: Store, e: Event) {
    e == EndPass && s.inPass && s.toRetry == []
  }

  /** From within the cap, only the end of a pass can lead over it, and does so
      exactly when the failures and what arrived meanwhile do not fit together. */
  lemma CrossesCapOnlyAtEnd(s: Store, e: Event)
    requires |s.buffer| <= BUFFER_CAP || !s.inPass
    ensures |s.buffer| <= BUFFER_CAP ==>
              (|Step(s, e).buffer| > BUFFER_CAP <==> Ends(s, e) && |s.failed| + |s.buffer| > BUFFER_CAP)
    ensures Step(s, e).inPass ==> |Step(s, e).buffer| <= BUFFER_CAP
    ensures Ends(s, e) ==> |Step(s, e).buffer| == |s.failed| + |s.buffer|
    ensures |s.buffer| > BUFFER_CAP && !Step(s, e).inPass ==> |Step(s, e).buffer| == |s.buffer|
  {
  }

  /** How many records the last pass that ended left in the buffer. */
  ghost function LeftByLastPass(events: seq<Event>): nat {
    if events == [] then 0
    else
      var n := |events| - 1;
      var s := Run(events[..n]);
      if Ends(s, events[n]) then |s.failed| + |s.buffer| else LeftByLastPass(events[..n])
  }

  /** On every run the buffer is over the cap exactly when no pass is under way
      and the last pass that ended left more than the cap; until the next pass it
      then neither shrinks nor grows. */
  lemma {:induction false} OverCapExactly(events: seq<Event>)
    ensures var s, left := Run(events), LeftByLastPass(events);
            && (|s.buffer| > BUFFER_CAP <==> !s.inPass && left > BUFFER_CAP)
            && (|s.buffer| > BUFFER_CAP ==> |s.buffer| == left)
  {
    if events != [] {
      var n := |events| - 1;
      OverCapExactly(events[..n]);
      CrossesCapOnlyAtEnd(Run(events[..n]), events[n]);
      OnlyDrainStartsPass(Run(events[..n]), events[n]);
    }
  }

  lemma OnlyDrainStartsPass(s: Store, e: Event)
    ensures Step(s, e).inPass <==> (s.inPass && !Ends(s, e)) || (!s.inPass && e == Drain)
    ensures !s.inPass && e == Drain ==> Step(s, e).buffer == []
  {
  }
}
