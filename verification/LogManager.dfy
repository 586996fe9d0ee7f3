/** Log messages across reconnects: a bounded ring buffer holds what cannot be
    sent and is replayed into the next connection. */
module LogManager {
  import opened Common

  const RING_CAPACITY := 5000

  /** The last `n` elements, or all of a shorter sequence. */
  function Newest<T>(s: seq<T>, n: nat): seq<T> {
    if |s| <= n then s else s[|s| - n..]
  }

  /** A buffer made for zero elements still keeps the last one pushed. */
  function Bound(capacity: nat): nat {
    if capacity == 0 then 1 else capacity
  }

  class RingBuffer<T> {
    var buffer: seq<T>
    const capacity: nat

    ghost predicate Valid()
      reads this
    {
      |buffer| <= Bound(capacity)
    }

    constructor (capacity: nat)
      ensures Valid() && buffer == [] && this.capacity == capacity
    {
      this.capacity := capacity;
      buffer := [];
    }

    method Push(item: T)
      requires Valid()
      modifies this
      ensures Valid() && buffer == Newest(old(buffer) + [item], Bound(capacity))
    {
      if |buffer| >= capacity {
        buffer := if buffer == [] then [] else buffer[1..];
      }
      buffer := buffer + [item];
    }

    method PopAll() returns (items: seq<T>)
      modifies this
      ensures items == old(buffer) && buffer == [] && Valid()
    {
      items := buffer;
      buffer := [];
    }

    method Len() returns (n: nat)
      ensures n == |buffer|
    {
      n := |buffer|;
    }
  }

  // ----- the event loop, one event at a time -----

  /** Messages are numbered in the order received. `outage` is the number of the
      first message that the present outage kept from being sent; the last four
      fields are the history of the run. */
  datatype Manager = Manager(
    live: bool, ring: seq<nat>, outage: nat,
    received: nat, delivered: seq<nat>, lost: seq<nat>, evicted: seq<nat>)

  /** `sent` tells whether a send on the current channel, or the i-th send of a
      replay, is taken by the channel. */
  datatype Event = Receive(sent: bool) | SetTx(accepts: nat -> bool)

  function Start(): Manager {
    Manager(false, [], 0, 0, [], [], [])
  }

  /** The replayed messages whose sends had the given outcome. */
  function Replayed(ring: seq<nat>, accepts: nat -> bool, outcome: bool): seq<nat> {
    if ring == [] then []
    else
      var n := |ring| - 1;
      Replayed(ring[..n], accepts, outcome) + (if accepts(n) == outcome then [ring[n]] else [])
  }

  function Step(capacity: nat, s: Manager, e: Event): Manager {
    match e
    case Receive(sent) =>
      var m := s.received;
      if s.live && sent then s.(received := m + 1, delivered := s.delivered + [m])
      else
        var kept := Newest(s.ring + [m], Bound(capacity));
        s.(live := false, ring := kept, outage := if s.live then m else s.outage, received := m + 1,
           evicted := s.evicted + (s.ring + [m])[..|s.ring| + 1 - |kept|])
    case SetTx(accepts) =>
      s.(live := true, ring := [],
         delivered := s.delivered + Replayed(s.ring, accepts, true),
         lost := s.lost + Replayed(s.ring, accepts, false))
  }

  class LogManager {
    var live: bool
    const ring: RingBuffer<nat>
    var received: nat
    ghost var outage: nat
    ghost var delivered: seq<nat>
    ghost var lost: seq<nat>
    ghost var evicted: seq<nat>

    ghost function View(): Manager
      reads this, ring
    {
      Manager(live, ring.buffer, outage, received, delivered, lost, evicted)
    }

    ghost predicate Valid()
      reads this, ring
    {
      ring.Valid()
    }

    constructor ()
      ensures Valid() && fresh(ring) && ring.capacity == 5000 && View() == Start()
    {
      ring := new RingBuffer<nat>(RING_CAPACITY);
      live, received, outage := false, 0, 0;
      delivered, lost, evicted := [], [], [];
    }

    /** A message arrives; `sent` is the outcome of sending it, if a channel is set. */
    method OnMessage(sent: bool)
      requires Valid()
      modifies this, ring
      ensures Valid() && View() == Step(ring.capacity, old(View()), Receive(sent))
      // A live channel that takes the message gets it at once; otherwise the channel
      // is given up and the message is the newest in the buffer.
      ensures old(live) && sent ==>
                live && delivered == old(delivered) + [old(received)] && ring.buffer == old(ring.buffer)
      ensures !(old(live) && sent) ==>
                && !live && delivered == old(delivered) && ring.buffer != []
                && ring.buffer[|ring.buffer| - 1] == old(received)
    {
      var msg := received;
      received := received + 1;
      if live {
        if sent {
          delivered := delivered + [msg];
        } else {
          live := false;
          outage := msg;
          Keep(msg);
        }
      } else {
        Keep(msg);
      }
    }

    method Keep(msg: nat)
      requires Valid()
      modifies ring, `evicted
      ensures Valid() && ring.buffer == Newest(old(ring.buffer) + [msg], Bound(ring.capacity))
      ensures evicted == old(evicted) + (old(ring.buffer) + [msg])[..|old(ring.buffer)| + 1 - |ring.buffer|]
    {
      ghost var all := ring.buffer + [msg];
      ring.Push(msg);
      evicted := evicted + all[..|all| - |ring.buffer|];
    }

    /** A new channel: replay the buffer into it, ignoring failed sends. */
    method OnSetTx(accepts: nat -> bool)
      requires Valid()
      modifies this, ring
      ensures Valid() && View() == Step(ring.capacity, old(View()), SetTx(accepts))
      ensures live && ring.buffer == [] && received == old(received)
      ensures (forall k: nat :: accepts(k)) ==> delivered == old(delivered) + old(ring.buffer) && lost == old(lost)
    {
      live := true;
      var backfill := ring.PopAll();
      for i := 0 to |backfill|
        modifies `delivered, `lost
        invariant delivered == old(delivered) + Replayed(backfill[..i], accepts, true)
        invariant lost == old(lost) + Replayed(backfill[..i], accepts, false)
      {
        assert backfill[..i + 1][..i] == backfill[..i];
        if accepts(i) {
          delivered := delivered + [backfill[i]];
        } else {
          lost := lost + [backfill[i]];
        }
      }
      assert backfill[..|backfill|] == backfill;
      if forall k: nat :: accepts(k) { AllReplayed(backfill, accepts); }
    }
  }

  // ----- whole runs -----

  function Run(capacity: nat, events: seq<Event>): Manager {
    if events == [] then Start()
    else Step(capacity, Run(capacity, events[..|events| - 1]), events[|events| - 1])
  }

  /** The numbers from `lo` up to but not including `hi`. */
  ghost function Numbers(lo: nat, hi: nat): seq<nat>
    requires lo <= hi
  {
    seq(hi - lo, i requires 0 <= i < hi - lo => lo + i)
  }

  /** Number of the oldest message that an outage still holds. */
  ghost function Oldest(capacity: nat, s: Manager): int {
    var full := s.received - Bound(capacity);
    if full > s.outage then full else s.outage
  }

  ghost predicate Inv(capacity: nat, s: Manager) {
    && (s.live ==> s.ring == [])
    && (!s.live ==> Oldest(capacity, s) <= s.received && s.ring == Numbers(Oldest(capacity, s), s.received))
    && (forall x :: x in s.delivered ==> x < (if s.live then s.received else s.outage))
    && s.outage <= s.received
    && Ascending(s.delivered)
  }

  lemma {:induction false} ReplayedOrder(ring: seq<nat>, accepts: nat -> bool, outcome: bool)
    requires Ascending(ring)
    ensures Ascending(Replayed(ring, accepts, outcome))
    ensures forall x :: x in Replayed(ring, accepts, outcome) ==> x in ring
  {
    if ring != [] {
      var n := |ring| - 1;
      ReplayedOrder(ring[..n], accepts, outcome);
      assert ring == ring[..n] + [ring[n]];
      AscendingConcat(Replayed(ring[..n], accepts, outcome), if accepts(n) == outcome then [ring[n]] else [], ring[n]);
    }
  }

  lemma AscendingConcat(xs: seq<nat>, ys: seq<nat>, mid: nat)
    requires Ascending(xs) && Ascending(ys)
    requires (forall x :: x in xs ==> x < mid) && (forall y :: y in ys ==> mid <= y)
    ensures Ascending(xs + ys)
  {
    forall i, j | 0 <= i < j < |xs + ys| ensures (xs + ys)[i] < (xs + ys)[j] {
      if i < |xs| <= j { assert xs[i] in xs && ys[j - |xs|] in ys; }
    }
  }

  lemma NumbersPush(lo: nat, hi: nat, b: nat)
    requires lo <= hi && b > 0 && hi - lo <= b
    ensures var lo' := if hi + 1 - b > lo then hi + 1 - b else lo;
            Newest(Numbers(lo, hi) + [hi], b) == Numbers(lo', hi + 1)
  {
    assert Numbers(lo, hi) + [hi] == Numbers(lo, hi + 1);
  }

  lemma SentKeepsInv(capacity: nat, s: Manager)
    requires Inv(capacity, s) && s.live
    ensures Inv(capacity, Step(capacity, s, Receive(true)))
  {
    AscendingConcat(s.delivered, [s.received], s.received);
  }

  lemma OnlyOne(capacity: nat, x: nat)
    ensures Newest([] + [x], Bound(capacity)) == Numbers(x, x + 1)
  {
  }

  lemma OutageKeepsInv(capacity: nat, s: Manager)
    requires Inv(capacity, s) && s.live
    ensures Inv(capacity, Step(capacity, s, Receive(false)))
  {
    OnlyOne(capacity, s.received);
  }

  lemma BufferedKeepsInv(capacity: nat, s: Manager, sent: bool)
    requires Inv(capacity, s) && !s.live
    ensures Inv(capacity, Step(capacity, s, Receive(sent)))
  {
    NumbersPush(Oldest(capacity, s), s.received, Bound(capacity));
  }

  lemma ReceiveKeepsInv(capacity: nat, s: Manager, sent: bool)
    requires Inv(capacity, s)
    ensures Inv(capacity, Step(capacity, s, Receive(sent)))
  {
    if !s.live { BufferedKeepsInv(capacity, s, sent); }
    else if sent { SentKeepsInv(capacity, s); }
    else { OutageKeepsInv(capacity, s); }
  }

  lemma SetTxKeepsInv(capacity: nat, s: Manager, accepts: nat -> bool)
    requires Inv(capacity, s)
    ensures Inv(capacity, Step(capacity, s, SetTx(accepts)))
  {
    ReplayedOrder(s.ring, accepts, true);
    AscendingConcat(s.delivered, Replayed(s.ring, accepts, true), if s.live then s.received else s.outage);
  }

  lemma {:induction false} RunInv(capacity: nat, events: seq<Event>)
    ensures Inv(capacity, Run(capacity, events))
  {
    if events != [] {
      var n := |events| - 1;
      RunInv(capacity, events[..n]);
      match events[n] {
        case Receive(sent) => ReceiveKeepsInv(capacity, Run(capacity, events[..n]), sent);
        case SetTx(accepts) => SetTxKeepsInv(capacity, Run(capacity, events[..n]), accepts);
      }
    }
  }

  /** On every run a live channel means an empty ring buffer, and the delivered
      messages followed by the buffered ones are in order without repeats. */
  lemma InOrder(capacity: nat, events: seq<Event>)
    ensures var s := Run(capacity, events);
            (s.live ==> s.ring == []) && Ascending(s.delivered + s.ring)
  {
    RunInv(capacity, events);
    var s := Run(capacity, events);
    if s.live { assert s.delivered + s.ring == s.delivered; }
    else { AscendingConcat(s.delivered, s.ring, s.outage); }
  }

  /** During an outage the buffer holds exactly its newest messages, as many as
      fit; the ones missing are exactly its oldest. */
  lemma RingHoldsNewest(capacity: nat, events: seq<Event>, m: nat)
    requires !Run(capacity, events).live
    ensures var s := Run(capacity, events);
            m in s.ring <==> s.outage <= m < s.received && m >= s.received - Bound(capacity)
  {
    RunInv(capacity, events);
    var s := Run(capacity, events);
    if Oldest(capacity, s) <= m < s.received { assert s.ring[m - Oldest(capacity, s)] == m; }
  }

  function One(b: bool): nat {
    if b then 1 else 0
  }

  /** In how many of the four places a message is. */
  ghost function Places(s: Manager, m: nat): nat {
    One(m in s.delivered) + One(m in s.ring) + One(m in s.evicted) + One(m in s.lost)
  }

  lemma {:induction false} ReplayedSplit(ring: seq<nat>, accepts: nat -> bool, x: nat)
    requires Ascending(ring)
    ensures One(x in ring) == One(x in Replayed(ring, accepts, true)) + One(x in Replayed(ring, accepts, false))
  {
    if ring != [] {
      var n := |ring| - 1;
      var init := ring[..n];
      ReplayedSplit(init, accepts, x);
      ReplayedOrder(init, accepts, true);
      ReplayedOrder(init, accepts, false);
      assert ring == init + [ring[n]];
      assert ring[n] !in init;
    }
  }

  lemma AscendingSplit(xs: seq<nat>, k: nat, x: nat)
    requires Ascending(xs) && k <= |xs|
    ensures One(x in xs) == One(x in xs[..k]) + One(x in xs[k..])
  {
    assert xs == xs[..k] + xs[k..];
  }

  lemma InConcat(xs: seq<nat>, ys: seq<nat>, x: nat)
    ensures x in xs + ys <==> x in xs || x in ys
  {
  }

  lemma SetTxPlaces(capacity: nat, s: Manager, accepts: nat -> bool, m: nat)
    requires Ascending(s.ring) && Places(s, m) <= 1
    ensures Places(Step(capacity, s, SetTx(accepts)), m) == Places(s, m)
  {
    ReplayedSplit(s.ring, accepts, m);
    InConcat(s.delivered, Replayed(s.ring, accepts, true), m);
    InConcat(s.lost, Replayed(s.ring, accepts, false), m);
  }

  lemma ReceivePlaces(capacity: nat, s: Manager, sent: bool, m: nat)
    requires Ascending(s.ring + [s.received]) && Places(s, m) == One(m < s.received)
    ensures Places(Step(capacity, s, Receive(sent)), m) == One(m < s.received + 1)
  {
    if s.live && sent {
      InConcat(s.delivered, [s.received], m);
    } else {
      var all := s.ring + [s.received];
      var kept := Newest(all, Bound(capacity));
      var k := |all| - |kept|;
      assert kept == all[k..];
      AscendingSplit(all, k, m);
      InConcat(s.ring, [s.received], m);
      InConcat(s.evicted, all[..k], m);
    }
  }

  lemma InvAscending(capacity: nat, s: Manager)
    requires Inv(capacity, s)
    ensures Ascending(s.ring) && Ascending(s.ring + [s.received])
  {
  }

  lemma StepPlaces(capacity: nat, s: Manager, e: Event, m: nat)
    requires Inv(capacity, s) && Places(s, m) == One(m < s.received)
    ensures var s' := Step(capacity, s, e); Places(s', m) == One(m < s'.received)
  {
    InvAscending(capacity, s);
    match e
    case SetTx(accepts) => SetTxPlaces(capacity, s, accepts, m);
    case Receive(sent) => ReceivePlaces(capacity, s, sent, m);
  }

  /** Every received message is in exactly one place: delivered, buffered,
      evicted by capacity, or lost to a failed replay send. */
  lemma {:induction false} EveryMessageAccounted(capacity: nat, events: seq<Event>, m: nat)
    ensures Places(Run(capacity, events), m) == One(m < Run(capacity, events).received)
  {
    if events != [] {
      var n := |events| - 1;
      EveryMessageAccounted(capacity, events[..n], m);
      RunInv(capacity, events[..n]);
      StepPlaces(capacity, Run(capacity, events[..n]), events[n], m);
    }
  }

  lemma {:induction false} NothingLost(capacity: nat, events: seq<Event>)
    requires forall i :: 0 <= i < |events| && events[i].SetTx? ==> forall k: nat :: events[i].accepts(k)
    ensures Run(capacity, events).lost == []
  {
    if events != [] {
      var n := |events| - 1;
      NothingLost(capacity, events[..n]);
      if events[n].SetTx? { NoneRefused(Run(capacity, events[..n]).ring, events[n].accepts); }
    }
  }

  lemma {:induction false} AllReplayed(ring: seq<nat>, accepts: nat -> bool)
    requires forall k: nat :: accepts(k)
    ensures Replayed(ring, accepts, true) == ring && Replayed(ring, accepts, false) == []
  {
    if ring != [] {
      AllReplayed(ring[..|ring| - 1], accepts);
      assert ring == ring[..|ring| - 1] + [ring[|ring| - 1]];
    }
  }

  lemma {:induction false} NoneRefused(ring: seq<nat>, accepts: nat -> bool)
    requires forall k: nat :: accepts(k)
    ensures Replayed(ring, accepts, false) == []
  {
    if ring != [] { NoneRefused(ring[..|ring| - 1], accepts); }
  }

  /** If every replay send is taken, the messages that are neither delivered nor
      buffered are exactly those evicted by capacity. */
  lemma OnlyEvictionLoses(capacity: nat, events: seq<Event>, m: nat)
    requires forall i :: 0 <= i < |events| && events[i].SetTx? ==> forall k: nat :: events[i].accepts(k)
    requires m < Run(capacity, events).received
    ensures var s := Run(capacity, events); m !in s.delivered && m !in s.ring <==> m in s.evicted
  {
    EveryMessageAccounted(capacity, events, m);
    NothingLost(capacity, events);
  }
}
