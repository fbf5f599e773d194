/** Every interleaving of threads pumping, reading, peeking at and closing one socket. Each event
    is one section that runs under the sockets lock, or one step of a recv() that runs without it. */
module RecvInterleavings {
  import opened Ipx
  import opened RecvQueue

  /** A pump that has dropped the lock: still in recv(), or back with recv()'s return value. */
  datatype Pump = Blocked(slot: int) | Returned(slot: int, r: int)

  /** The queue, its socket, the pumps in flight and the kernel's receive buffer; then history. */
  datatype World = World(q: Queue, open: bool, destroyed: bool, pumps: map<nat, Pump>, kernel: seq<Bytes>,
                         published: nat, abandoned: nat, arrived: seq<Bytes>, popped: seq<Bytes>)

  const START := World(Queue(seq(32, _ => FREE), [], seq(32, _ => []), 1), true, false, map[], [], 0, 0, [], [])

  datatype Event =
    | Arrive(d: Bytes)                    // a datagram reaches the kernel's buffer
    | Claim(tid: nat)                     // recv_pump() takes a slot and drops the lock
    | Receive(tid: nat)                   // its recv() takes the first datagram
    | RecvError(tid: nat)                 // its recv() fails
    | Reclaim(tid: nat, found: bool)      // it has the lock again
    | Pop | Peek                          // recv_packet() with a packet ready
    | Close                               // closesocket()

  ghost predicate Enabled(w: World, e: Event) {
    match e
    case Arrive(_) => w.open
    case Claim(t) => w.open && t !in w.pumps && Shaped(w.q) && FirstFree(w.q.sizes) < 32
    case Receive(t) => t in w.pumps && w.pumps[t].Blocked? && w.kernel != [] && 0 <= w.pumps[t].slot < |w.q.data|
    case RecvError(t) => t in w.pumps && w.pumps[t].Blocked?
    // After a close the lookup fails, unless a new socket got the same descriptor and address.
    case Reclaim(t, found) => t in w.pumps && w.pumps[t].Returned? && (w.open ==> found)
                              && Shaped(w.q) && 0 <= w.pumps[t].slot < 32
    case Pop => w.open && w.q.ready != [] && Shaped(w.q) && 0 <= w.q.ready[0] < 32
    case Peek => w.open && w.q.ready != []
    case Close => w.open
  }

  function Apply(w: World, e: Event): World
    requires Enabled(w, e)
  {
    match e
    case Arrive(d) => w.(kernel := w.kernel + [d], arrived := w.arrived + [d])
    case Claim(t) => w.(q := Claimed(w.q), pumps := w.pumps[t := Blocked(FirstFree(w.q.sizes))])
    case Receive(t) =>
      var slot, d := w.pumps[t].slot, w.kernel[0];
      // A datagram larger than the buffer is cut off and reported as an error.
      var kept := if |d| <= MAX_PKT_SIZE then d else d[..MAX_PKT_SIZE];
      w.(kernel := w.kernel[1..], q := w.q.(data := w.q.data[slot := kept]),
         pumps := w.pumps[t := Returned(slot, if |d| <= MAX_PKT_SIZE then |d| else -1)])
    case RecvError(t) => w.(pumps := w.pumps[t := Returned(w.pumps[t].slot, -1)])
    case Reclaim(t, found) =>
      var q := Reclaimed(w.q, w.pumps[t].slot, w.pumps[t].r, found);
      w.(q := q, pumps := w.pumps - {t},
         destroyed := w.destroyed || (q.refcount < w.q.refcount && q.refcount == 0),
         published := w.published + (if |q.ready| > |w.q.ready| then 1 else 0),
         abandoned := w.abandoned + if found then 0 else 1)
    case Pop => w.(q := Popped(w.q), popped := w.popped + [w.q.data[w.q.ready[0]]])
    case Peek => w
    case Close =>
      w.(open := false, q := w.q.(refcount := w.q.refcount - 1), destroyed := w.destroyed || w.q.refcount == 1)
  }

  // ----- the invariant -----

  ghost predicate PumpsHoldSlots(w: World)
    requires Shaped(w.q)
  {
    && (forall t :: t in w.pumps ==> 0 <= w.pumps[t].slot < 32 && w.q.sizes[w.pumps[t].slot] == LOCKED)
    && (forall t, u :: t in w.pumps && u in w.pumps && t != u ==> w.pumps[t].slot != w.pumps[u].slot)
    && (forall t :: t in w.pumps && w.pumps[t].Returned? && w.pumps[t].r != -1 ==>
          w.pumps[t].r == |w.q.data[w.pumps[t].slot]| <= MAX_PKT_SIZE)
  }

  /** While the socket is open, a locked slot belongs to a pump in flight. */
  ghost predicate LockedByPumps(w: World)
    requires Shaped(w.q)
  {
    w.open ==> w.abandoned == 0 && forall i :: 0 <= i < 32 && w.q.sizes[i] == LOCKED ==>
      exists t :: t in w.pumps && w.pumps[t].slot == i
  }

  /** Every slot is free, ready, held by a pump, or was left locked by a pump whose socket was gone. */
  ghost predicate SlotsAccounted(w: World) {
    CountFree(w.q.sizes) + |w.q.ready| + |w.pumps| + w.abandoned == 32
  }

  /** The socket, each pump in flight and each packet ever published hold one reference. */
  ghost predicate RefsAccounted(w: World) {
    && w.q.refcount == (if w.open then 1 else 0) + |w.pumps| + w.published
    && (w.destroyed <==> w.q.refcount == 0)
  }

  ghost predicate Inv(w: World) {
    WellFormed(w.q) && PumpsHoldSlots(w) && LockedByPumps(w) && SlotsAccounted(w) && RefsAccounted(w)
  }

  lemma {:induction false} CountFreeUpdate(s: seq<int>, i: nat, x: int)
    requires i < |s|
    ensures CountFree(s[i := x]) == CountFree(s) - (if s[i] == FREE then 1 else 0) + if x == FREE then 1 else 0
  {
    var last := |s| - 1;
    if i < last {
      assert s[i := x][..last] == s[..last][i := x];
      CountFreeUpdate(s[..last], i, x);
    } else {
      assert s[i := x][..last] == s[..last];
    }
  }

  lemma {:induction false} CountFreeNone(s: seq<int>)
    ensures CountFree(s) == 0 <==> forall i :: 0 <= i < |s| ==> s[i] != FREE
  {
    if s != [] {
      CountFreeNone(s[..|s| - 1]);
      assert forall i :: 0 <= i < |s| - 1 ==> s[..|s| - 1][i] == s[i];
    }
  }

  lemma {:induction false} CountFreeAll(s: seq<int>)
    requires forall i :: 0 <= i < |s| ==> s[i] == FREE
    ensures CountFree(s) == |s|
  {
    if s != [] { CountFreeAll(s[..|s| - 1]); }
  }

  lemma FewerPumps(pumps: map<nat, Pump>, t: nat)
    requires t in pumps
    ensures |pumps - {t}| == |pumps| - 1
  {}

  lemma InvIsShaped(w: World)
    requires Inv(w)
    ensures Shaped(w.q)
  {}

  lemma StartInv()
    ensures Inv(START)
  {
    CountFreeAll(START.q.sizes);
  }

  lemma ClaimedWellFormed(q: Queue)
    requires WellFormed(q) && FirstFree(q.sizes) < 32
    ensures WellFormed(Claimed(q)) && CountFree(Claimed(q).sizes) == CountFree(q.sizes) - 1
  {
    CountFreeUpdate(q.sizes, FirstFree(q.sizes), LOCKED);
    hide FirstFree;
  }

  lemma ClaimKeepsPumps(w: World, t: nat)
    requires WellFormed(w.q) && PumpsHoldSlots(w) && LockedByPumps(w) && Enabled(w, Claim(t))
    ensures Shaped(Claimed(w.q)) && PumpsHoldSlots(Apply(w, Claim(t))) && LockedByPumps(Apply(w, Claim(t)))
  {
    hide WellFormed, FirstFree;
    var i := FirstFree(w.q.sizes);
    var w' := Apply(w, Claim(t));
    assert w'.pumps[t].slot == i;
    forall j | w.open && 0 <= j < 32 && w'.q.sizes[j] == LOCKED
      ensures exists u :: u in w'.pumps && w'.pumps[u].slot == j
    {
      if j != i {
        var u :| u in w.pumps && w.pumps[u].slot == j;
        assert w'.pumps[u].slot == j;
      }
    }
  }

  lemma ClaimKeepsInv(w: World, t: nat)
    requires Inv(w) && Enabled(w, Claim(t))
    ensures Inv(Apply(w, Claim(t)))
  {
    hide WellFormed, PumpsHoldSlots, LockedByPumps, FirstFree, CountFree;
    ClaimedWellFormed(w.q);
    ClaimKeepsPumps(w, t);
  }

  /** recv() writes only to a slot its pump holds, never to one that is ready. */
  lemma ReceivedWellFormed(q: Queue, slot: int, d: Bytes)
    requires WellFormed(q) && 0 <= slot < 32 && q.sizes[slot] == LOCKED
    ensures WellFormed(q.(data := q.data[slot := d]))
  {}

  /** A recv() that returns changes its own pump's state and the contents of its own slot only. */
  ghost predicate OnlyReturns(w: World, w': World, t: nat)
    requires t in w.pumps
  {
    && t in w'.pumps && w'.pumps[t].Returned?
    && w'.pumps == w.pumps[t := Returned(w.pumps[t].slot, w'.pumps[t].r)]
    && w'.q == w.q.(data := w'.q.data) && |w'.q.data| == |w.q.data| == 32
    && (forall i :: 0 <= i < 32 && i != w.pumps[t].slot ==> w'.q.data[i] == w.q.data[i])
    && w' == w.(q := w'.q, pumps := w'.pumps, kernel := w'.kernel)
    && (w'.pumps[t].r == -1 || (0 <= w.pumps[t].slot < 32 && w'.pumps[t].r == |w'.q.data[w.pumps[t].slot]| <= MAX_PKT_SIZE))
  }

  lemma ReturnKeepsLocks(w: World, w': World, t: nat)
    requires Shaped(w.q) && LockedByPumps(w) && t in w.pumps && OnlyReturns(w, w', t)
    ensures LockedByPumps(w')
  {
    forall j | w.open && 0 <= j < 32 && w'.q.sizes[j] == LOCKED
      ensures exists u :: u in w'.pumps && w'.pumps[u].slot == j
    {
      var u :| u in w.pumps && w.pumps[u].slot == j;
      assert u in w'.pumps && w'.pumps[u].slot == j;
    }
  }

  lemma ReturnKeepsPumps(w: World, w': World, t: nat)
    requires Shaped(w.q) && PumpsHoldSlots(w) && t in w.pumps && OnlyReturns(w, w', t)
    ensures PumpsHoldSlots(w')
  {
    assert w'.pumps.Keys == w.pumps.Keys;
    assert forall u :: u in w.pumps ==> w'.pumps[u].slot == w.pumps[u].slot;
  }

  lemma OneSlotChanged(data: seq<Bytes>, data': seq<Bytes>, slot: int)
    requires |data| == |data'| == 32 && 0 <= slot < 32
    requires forall i :: 0 <= i < 32 && i != slot ==> data'[i] == data[i]
    ensures data' == data[slot := data'[slot]]
  {}

  lemma ReturnKeepsInv(w: World, w': World, t: nat)
    requires Inv(w) && t in w.pumps && OnlyReturns(w, w', t)
    ensures Inv(w')
  {
    hide WellFormed, PumpsHoldSlots, LockedByPumps, CountFree;
    InvIsShaped(w);
    PumpSlot(w, t);
    ReturnKeepsLocks(w, w', t);
    ReturnKeepsPumps(w, w', t);
    OneSlotChanged(w.q.data, w'.q.data, w.pumps[t].slot);
    ReceivedWellFormed(w.q, w.pumps[t].slot, w'.q.data[w.pumps[t].slot]);
  }

  lemma ReceiveKeepsInv(w: World, e: Event)
    requires Inv(w) && Enabled(w, e) && (e.Receive? || e.RecvError?)
    ensures Inv(Apply(w, e))
  {
    var w' := Apply(w, e);
    assert OnlyReturns(w, w', e.tid);
    ReturnKeepsInv(w, w', e.tid);
  }

  lemma ReclaimedWellFormed(q: Queue, slot: int, r: int, found: bool)
    requires WellFormed(q) && 0 <= slot < 32 && q.sizes[slot] == LOCKED && r <= MAX_PKT_SIZE
    ensures var q' := Reclaimed(q, slot, r, found);
            && WellFormed(q')
            && CountFree(q'.sizes) == CountFree(q.sizes) + (if found && !Publishes(q, slot, r) then 1 else 0)
  {
    hide CountFree, LittleEndian16;
    CountFreeUpdate(q.sizes, slot, Reclaimed(q, slot, r, found).sizes[slot]);
    assert slot !in q.ready;
    if found && Publishes(q, slot, r) {
    }
  }

  lemma ReclaimKeepsPumps(w: World, t: nat, found: bool)
    requires WellFormed(w.q) && PumpsHoldSlots(w) && LockedByPumps(w) && Enabled(w, Reclaim(t, found))
    ensures PumpsHoldSlots(Apply(w, Reclaim(t, found))) && LockedByPumps(Apply(w, Reclaim(t, found)))
  {
    hide WellFormed;
    var w' := Apply(w, Reclaim(t, found));
    forall j | w.open && 0 <= j < 32 && w'.q.sizes[j] == LOCKED
      ensures exists u :: u in w'.pumps && w'.pumps[u].slot == j
    {
      var u :| u in w.pumps && w.pumps[u].slot == j;
      assert u != t && u in w'.pumps && w'.pumps[u] == w.pumps[u];
    }
  }

  lemma ReclaimKeepsInv(w: World, t: nat, found: bool)
    requires Inv(w) && Enabled(w, Reclaim(t, found))
    ensures Inv(Apply(w, Reclaim(t, found)))
  {
    hide WellFormed, PumpsHoldSlots, LockedByPumps, CountFree, Publishes;
    PumpSlot(w, t);
    FewerPumps(w.pumps, t);
    ReclaimedWellFormed(w.q, w.pumps[t].slot, w.pumps[t].r, found);
    ReclaimKeepsPumps(w, t, found);
  }

  lemma PumpSlot(w: World, t: nat)
    requires Shaped(w.q) && PumpsHoldSlots(w) && t in w.pumps
    ensures 0 <= w.pumps[t].slot < 32 && w.q.sizes[w.pumps[t].slot] == LOCKED
    ensures w.pumps[t].Returned? ==> w.pumps[t].r <= MAX_PKT_SIZE
  {}

  lemma PopKeepsInv(w: World)
    requires Inv(w) && Enabled(w, Pop)
    ensures Inv(Apply(w, Pop))
  {
    PopKeepsWellFormed(w.q);
    CountFreeUpdate(w.q.sizes, w.q.ready[0], FREE);
    assert w.q.ready[0] in w.q.ready;
  }

  lemma StepKeepsInv(w: World, e: Event)
    requires Inv(w) && Enabled(w, e)
    ensures Inv(Apply(w, e))
  {
    match e
    case Claim(t) => ClaimKeepsInv(w, t);
    case Receive(_) => ReceiveKeepsInv(w, e);
    case RecvError(_) => ReceiveKeepsInv(w, e);
    case Reclaim(t, found) => ReclaimKeepsInv(w, t, found);
    case Pop => PopKeepsInv(w);
    case Arrive(_) =>
    case Peek =>
    case Close =>
  }

  /** What can happen next, in every state that satisfies the invariant: only a full queue keeps a
      thread from pumping, only an empty kernel buffer from receiving, and no close keeps a pump from
      coming back. */
  lemma WhatCanHappen(w: World, t: nat, d: Bytes)
    requires Inv(w)
    ensures Enabled(w, Arrive(d)) == Enabled(w, Close) == w.open
    ensures Enabled(w, Pop) == Enabled(w, Peek) == (w.open && w.q.ready != [])
    ensures Enabled(w, Claim(t)) <==> w.open && t !in w.pumps && exists i :: 0 <= i < 32 && w.q.sizes[i] == FREE
    ensures Enabled(w, Receive(t)) <==> t in w.pumps && w.pumps[t].Blocked? && w.kernel != []
    ensures Enabled(w, RecvError(t)) <==> t in w.pumps && w.pumps[t].Blocked?
    ensures Enabled(w, Reclaim(t, true)) <==> t in w.pumps && w.pumps[t].Returned?
    ensures Enabled(w, Reclaim(t, false)) <==> t in w.pumps && w.pumps[t].Returned? && !w.open
  {
    hide SlotsAccounted, RefsAccounted, LockedByPumps;
    if w.q.ready != [] { assert w.q.ready[0] in w.q.ready; }
  }

  // ----- runs -----

  ghost predicate Possible(w: World, run: seq<Event>)
    decreases |run|
  {
    run == [] || (Enabled(w, run[0]) && Possible(Apply(w, run[0]), run[1..]))
  }

  function Final(w: World, run: seq<Event>): World
    requires Possible(w, run)
    decreases |run|
  {
    if run == [] then w else Final(Apply(w, run[0]), run[1..])
  }

  lemma {:induction false} RunKeepsInv(w: World, run: seq<Event>)
    requires Inv(w) && Possible(w, run)
    ensures Inv(Final(w, run))
    decreases |run|
  {
    hide Enabled, Apply, Inv;
    if run != [] {
      StepKeepsInv(w, run[0]);
      RunKeepsInv(Apply(w, run[0]), run[1..]);
    }
  }

  /** After any interleaving: ready[] never overruns and holds distinct ready slots, a read finds
      its slot filled, a reclaiming pump finds room in ready[], and slots are fully accounted for. */
  lemma EveryInterleavingIsSafe(run: seq<Event>)
    requires Possible(START, run)
    ensures var w := Final(START, run);
            && WellFormed(w.q) && |w.q.ready| <= 32
            && (w.q.ready != [] ==> w.q.sizes[w.q.ready[0]] >= 0)
            && (w.pumps != map[] ==> |w.q.ready| < 32)
            && (w.open ==> CountFree(w.q.sizes) + |w.q.ready| + |w.pumps| == 32)
  {
    StartInv();
    RunKeepsInv(START, run);
    var w := Final(START, run);
    if w.pumps != map[] { var t :| t in w.pumps; assert |w.pumps| > 0; }
  }

  /** While the socket is open, a locked slot is held by exactly one pump in flight, and every
      pump in flight holds one. */
  lemma LockedSlotsMatchPumps(run: seq<Event>)
    requires Possible(START, run) && Final(START, run).open
    ensures var w := Final(START, run);
            && |w.q.sizes| == 32
            && (forall t :: t in w.pumps ==> 0 <= w.pumps[t].slot < 32 && w.q.sizes[w.pumps[t].slot] == LOCKED)
            && (forall i :: 0 <= i < 32 && w.q.sizes[i] == LOCKED ==> exists t :: t in w.pumps && w.pumps[t].slot == i)
            && (forall t, u :: t in w.pumps && u in w.pumps && w.pumps[t].slot == w.pumps[u].slot ==> t == u)
  {
    StartInv();
    RunKeepsInv(START, run);
  }

  /** A blocking read with nothing ready fails to find a free slot only when 32 pumps are in flight. */
  lemma ClaimFailsOnlyWhenFull(run: seq<Event>)
    requires Possible(START, run)
    ensures var w := Final(START, run);
            w.open && w.q.ready == [] ==> (FirstFree(w.q.sizes) == 32 <==> |w.pumps| == 32)
  {
    StartInv();
    RunKeepsInv(START, run);
    CountFreeNone(Final(START, run).q.sizes);
  }

  /** The queue is never destroyed while the socket is open or a pump is in flight. It is
      destroyed exactly when, beyond that, no pump has ever published a packet: a successful
      recv_pump() keeps its reference for good. */
  lemma DestroyedIff(run: seq<Event>)
    requires Possible(START, run)
    ensures var w := Final(START, run);
            w.destroyed <==> !w.open && w.pumps == map[] && w.published == 0
  {
    StartInv();
    RunKeepsInv(START, run);
  }

  /** The documented destruction with the last user's reference does not happen in the run that
      receives one (empty) packet, reads it and closes. */
  lemma ReceivingOncePinsTheQueue(run: seq<Event>, packet: Bytes)
    requires packet == seq(27, _ => 0)
    requires run == [Arrive(packet), Claim(0), Receive(0), Reclaim(0, true), Pop, Close]
    ensures Possible(START, run)
    ensures var w := Final(START, run); !w.open && w.pumps == map[] && w.q.ready == [] && !w.destroyed
  {
    hide Apply, Enabled, WellFormed;
    var w1, w2, w3, w4, w5, w6 := OnePacketStates(packet);
    FirstStep(w5, Close, []);
    FirstStep(w4, Pop, [Close]);
    FirstStep(w3, Reclaim(0, true), [Pop, Close]);
    FirstStep(w2, Receive(0), [Reclaim(0, true), Pop, Close]);
    FirstStep(w1, Claim(0), [Receive(0), Reclaim(0, true), Pop, Close]);
    FirstStep(START, Arrive(packet), [Claim(0), Receive(0), Reclaim(0, true), Pop, Close]);
    assert run == [Arrive(packet)] + [Claim(0), Receive(0), Reclaim(0, true), Pop, Close];
  }

  /** The states that run goes through. */
  lemma OnePacketStates(packet: Bytes) returns (w1: World, w2: World, w3: World, w4: World, w5: World, w6: World)
    requires packet == seq(27, _ => 0)
    ensures Enabled(START, Arrive(packet)) && w1 == Apply(START, Arrive(packet))
    ensures Enabled(w1, Claim(0)) && w2 == Apply(w1, Claim(0))
    ensures Enabled(w2, Receive(0)) && w3 == Apply(w2, Receive(0))
    ensures Enabled(w3, Reclaim(0, true)) && w4 == Apply(w3, Reclaim(0, true))
    ensures Enabled(w4, Pop) && w5 == Apply(w4, Pop)
    ensures Enabled(w5, Close) && w6 == Apply(w5, Close)
    ensures !w6.open && w6.pumps == map[] && w6.q.ready == [] && !w6.destroyed
  {
    w1 := Apply(START, Arrive(packet));
    w2 := Apply(w1, Claim(0));
    w3 := Apply(w2, Receive(0));
    w4 := Apply(w3, Reclaim(0, true));
    assert w4.q.ready == [0] && w4.pumps == map[] && w4.q.refcount == 2;
    w5 := Apply(w4, Pop);
    w6 := Apply(w5, Close);
  }

  lemma FirstStep(w: World, e: Event, rest: seq<Event>)
    requires Enabled(w, e) && Possible(Apply(w, e), rest)
    ensures Possible(w, [e] + rest) && Final(w, [e] + rest) == Final(Apply(w, e), rest)
  {}
}
