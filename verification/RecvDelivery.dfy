/** What reads deliver: under any interleaving no datagram is lost or duplicated while the socket
    is open. */
module RecvDelivery {
  import opened Ipx
  import opened RecvQueue
  import opened RecvInterleavings

  /** The datagrams recv_pump() does not discard. */
  function Accepted(s: seq<Bytes>): seq<Bytes> {
    if s == [] then [] else (if Acceptable(s[0]) then [s[0]] else []) + Accepted(s[1..])
  }

  lemma {:induction false} AcceptedSnoc(s: seq<Bytes>, d: Bytes)
    ensures Accepted(s + [d]) == Accepted(s) + if Acceptable(d) then [d] else []
  {
    if s == [] {
      assert s + [d] == [d];
    } else {
      assert (s + [d])[0] == s[0] && (s + [d])[1..] == s[1..] + [d];
      AcceptedSnoc(s[1..], d);
    }
  }

  /** A pump that is back from recv() with a datagram it will publish. */
  ghost predicate Carries(w: World, t: nat) {
    && t in w.pumps && w.pumps[t].Returned? && 0 <= w.pumps[t].slot < |w.q.data|
    && Publishes(w.q, w.pumps[t].slot, w.pumps[t].r)
  }

  /** The datagram slot i holds for a read, now or once its pump publishes it. */
  ghost function Held(w: World, i: nat): multiset<Bytes>
    requires Shaped(w.q) && i < 32
  {
    if w.q.sizes[i] >= 0 || (exists t :: Carries(w, t) && w.pumps[t].slot == i) then multiset{w.q.data[i]} else multiset{}
  }

  ghost function HeldBelow(w: World, n: nat): multiset<Bytes>
    requires Shaped(w.q) && n <= 32
  {
    if n == 0 then multiset{} else HeldBelow(w, n - 1) + Held(w, n - 1)
  }

  /** Two states differ in slot j and in pumps that hold slot j only. */
  ghost predicate ChangesOnly(w: World, w': World, j: nat)
    requires Shaped(w.q) && Shaped(w'.q)
  {
    && (forall i :: 0 <= i < 32 && i != j ==> w'.q.sizes[i] == w.q.sizes[i] && w'.q.data[i] == w.q.data[i])
    && (forall t :: t in w.pumps && w.pumps[t].slot != j ==> t in w'.pumps && w'.pumps[t] == w.pumps[t])
    && (forall t :: t in w'.pumps && w'.pumps[t].slot != j ==> t in w.pumps && w'.pumps[t] == w.pumps[t])
  }

  lemma HeldElsewhere(w: World, w': World, j: nat, i: nat)
    requires Shaped(w.q) && Shaped(w'.q) && ChangesOnly(w, w', j) && i < 32 && i != j
    ensures Held(w', i) == Held(w, i)
  {
    forall t ensures (Carries(w', t) && w'.pumps[t].slot == i) <==> (Carries(w, t) && w.pumps[t].slot == i) {}
  }

  lemma {:induction false} HeldChange(w: World, w': World, j: nat, n: nat)
    requires Shaped(w.q) && Shaped(w'.q) && j < 32 && n <= 32 && ChangesOnly(w, w', j)
    ensures j < n ==> HeldBelow(w', n) + Held(w, j) == HeldBelow(w, n) + Held(w', j)
    ensures j >= n ==> HeldBelow(w', n) == HeldBelow(w, n)
  {
    hide Held, ChangesOnly;
    if n > 0 {
      HeldChange(w, w', j, n - 1);
      var a, a' := HeldBelow(w, n - 1), HeldBelow(w', n - 1);
      if j == n - 1 {
        assert a + Held(w', j) + Held(w, j) == a + Held(w, j) + Held(w', j);
      } else {
        HeldElsewhere(w, w', j, n - 1);
        if j < n { Swap(a, a', Held(w, n - 1), Held(w, j), Held(w', j)); }
      }
    }
  }

  lemma Swap<T>(a: multiset<T>, a': multiset<T>, x: multiset<T>, h: multiset<T>, h': multiset<T>)
    requires a' + h == a + h'
    ensures a' + x + h == a + x + h'
  {
    assert a' + x + h == (a' + h) + x;
    assert a + x + h' == (a + h') + x;
  }

  /** Everything that arrived and is acceptable was read, is held in a slot, or is with the kernel. */
  ghost predicate Conserved(w: World)
    requires Shaped(w.q)
  {
    multiset(w.popped) + HeldBelow(w, 32) + multiset(Accepted(w.kernel)) == multiset(Accepted(w.arrived))
  }

  // ----- every event conserves -----

  lemma Rebalance<T>(p: multiset<T>, p': multiset<T>, h: multiset<T>, h': multiset<T>, k: multiset<T>, k': multiset<T>,
                     x: multiset<T>, x': multiset<T>, a: multiset<T>)
    requires p + h + k == a && h' + x == h + x'
    requires p' + x' + k' == p + x + k
    ensures p' + h' + k' == a
  {
    forall e ensures (p' + h' + k')[e] == a[e] {
      assert (p + h + k)[e] == a[e] && (h' + x)[e] == (h + x')[e] && (p' + x' + k')[e] == (p + x + k)[e];
    }
  }

  /** An event that changes one slot conserves if it does so locally. */
  lemma LocalConservation(w: World, w': World, j: nat)
    requires Shaped(w.q) && Shaped(w'.q) && j < 32 && ChangesOnly(w, w', j) && w'.arrived == w.arrived
    requires multiset(w'.popped) + Held(w', j) + multiset(Accepted(w'.kernel))
          == multiset(w.popped) + Held(w, j) + multiset(Accepted(w.kernel))
    requires Conserved(w)
    ensures Conserved(w')
  {
    HeldChange(w, w', j, 32);
    hide HeldBelow, Held, ChangesOnly, Accepted;
    Rebalance(multiset(w.popped), multiset(w'.popped), HeldBelow(w, 32), HeldBelow(w', 32),
              multiset(Accepted(w.kernel)), multiset(Accepted(w'.kernel)), Held(w, j), Held(w', j),
              multiset(Accepted(w.arrived)));
  }

  lemma ClaimConserves(w: World, t: nat)
    requires Inv(w) && Enabled(w, Claim(t)) && Conserved(w)
    ensures Shaped(Apply(w, Claim(t)).q) && Conserved(Apply(w, Claim(t)))
  {
    hide FirstFree, CountFree, HeldBelow, Accepted, LockedByPumps, Conserved;
    InvIsShaped(w);
    var j, w' := FirstFree(w.q.sizes), Apply(w, Claim(t));
    assert ChangesOnly(w, w', j);
    assert Held(w, j) == multiset{} == Held(w', j);
    LocalConservation(w, w', j);
  }

  /** A recv() that returns touches its own slot and pump only. */
  lemma ReceiveChanges(w: World, t: nat)
    requires Inv(w) && Enabled(w, Receive(t))
    ensures Shaped(w.q) && Shaped(Apply(w, Receive(t)).q) && ChangesOnly(w, Apply(w, Receive(t)), w.pumps[t].slot)
  {
    hide FirstFree, CountFree, HeldBelow, Accepted, LittleEndian16, WellFormed, LockedByPumps, Carries;
    InvIsShaped(w);
  }

  lemma ReceiveHolds(w: World, t: nat)
    requires Inv(w) && Enabled(w, Receive(t))
    ensures var j, w', d := w.pumps[t].slot, Apply(w, Receive(t)), w.kernel[0];
            && 0 <= j < 32 && Shaped(w.q) && Shaped(w'.q)
            && Held(w, j) == multiset{}
            && Held(w', j) == if Acceptable(d) then multiset{d} else multiset{}
  {
    hide FirstFree, CountFree, HeldBelow, Accepted, LittleEndian16, WellFormed, LockedByPumps;
    InvIsShaped(w);
    var j, w', d := w.pumps[t].slot, Apply(w, Receive(t)), w.kernel[0];
    assert Carries(w', t) <==> Acceptable(d);
    assert forall u :: Carries(w', u) && w'.pumps[u].slot == j ==> u == t;
  }

  lemma ReceiveConserves(w: World, t: nat)
    requires Inv(w) && Enabled(w, Receive(t)) && Conserved(w)
    ensures Shaped(Apply(w, Receive(t)).q) && Conserved(Apply(w, Receive(t)))
  {
    hide Held, HeldBelow, ChangesOnly, Inv, Acceptable, Accepted, Carries, Conserved;
    ReceiveHolds(w, t);
    ReceiveChanges(w, t);
    var w', d := Apply(w, Receive(t)), w.kernel[0];
    AcceptedFirst(w.kernel);
    InvIsShaped(w);
    LocalConservation(w, w', w.pumps[t].slot);
  }

  lemma AcceptedFirst(s: seq<Bytes>)
    requires s != []
    ensures Accepted(s) == (if Acceptable(s[0]) then [s[0]] else []) + Accepted(s[1..])
  {}

  lemma RecvErrorConserves(w: World, t: nat)
    requires Inv(w) && Enabled(w, RecvError(t))
    ensures Shaped(w.q) && Shaped(Apply(w, RecvError(t)).q)
    ensures Conserved(w) ==> Conserved(Apply(w, RecvError(t)))
  {
    hide FirstFree, CountFree, HeldBelow, Accepted, LockedByPumps, Conserved, WellFormed;
    InvIsShaped(w);
    var j, w' := w.pumps[t].slot, Apply(w, RecvError(t));
    assert ChangesOnly(w, w', j);
    assert Held(w, j) == multiset{} == Held(w', j);
    if Conserved(w) { LocalConservation(w, w', j); }
  }

  lemma ReclaimConserves(w: World, t: nat, found: bool)
    requires Inv(w) && Enabled(w, Reclaim(t, found)) && found && Conserved(w)
    ensures Shaped(Apply(w, Reclaim(t, found)).q) && Conserved(Apply(w, Reclaim(t, found)))
  {
    hide FirstFree, CountFree, HeldBelow, Accepted, LockedByPumps, Conserved, WellFormed;
    InvIsShaped(w);
    var j, w' := w.pumps[t].slot, Apply(w, Reclaim(t, found));
    assert ChangesOnly(w, w', j);
    assert Carries(w, t) <==> w'.q.sizes[j] >= 0;
    assert Held(w, j) == Held(w', j);
    LocalConservation(w, w', j);
  }

  lemma PopConserves(w: World)
    requires Inv(w) && Enabled(w, Pop) && Conserved(w)
    ensures Shaped(Apply(w, Pop).q) && Conserved(Apply(w, Pop))
  {
    hide FirstFree, CountFree, HeldBelow, Accepted, LockedByPumps, Conserved;
    InvIsShaped(w);
    var j, w' := w.q.ready[0], Apply(w, Pop);
    assert j in w.q.ready;
    assert ChangesOnly(w, w', j);
    assert Held(w', j) == multiset{} && Held(w, j) == multiset{w.q.data[j]};
    LocalConservation(w, w', j);
  }

  lemma StepConserves(w: World, e: Event)
    requires Inv(w) && Enabled(w, e) && Apply(w, e).open
    ensures Shaped(w.q) && Shaped(Apply(w, e).q) && (Conserved(w) ==> Conserved(Apply(w, e)))
  {
    hide Conserved;
    StepKeepsInv(w, e);
    InvIsShaped(w);
    InvIsShaped(Apply(w, e));
    if Conserved(w) { ConservesStep(w, e); }
  }

  lemma ConservesStep(w: World, e: Event)
    requires Inv(w) && Enabled(w, e) && Conserved(w) && Apply(w, e).open
    ensures Shaped(Apply(w, e).q) && Conserved(Apply(w, e))
  {
    match e
    case Claim(t) => ClaimConserves(w, t);
    case Receive(t) => ReceiveConserves(w, t);
    case RecvError(t) => RecvErrorConserves(w, t);
    case Reclaim(t, found) => ReclaimConserves(w, t, found);
    case Pop => PopConserves(w);
    case Arrive(d) => ArriveConserves(w, d);
    case Peek =>
    case Close =>
  }

  lemma ArriveConserves(w: World, d: Bytes)
    requires Inv(w) && Enabled(w, Arrive(d)) && Conserved(w)
    ensures Conserved(Apply(w, Arrive(d)))
  {
    var w' := Apply(w, Arrive(d));
    AcceptedSnoc(w.kernel, d);
    AcceptedSnoc(w.arrived, d);
    HeldSame(w, w', 32);
    hide Held, HeldBelow, Accepted, Acceptable;
  }

  lemma {:induction false} HeldSame(w: World, w': World, n: nat)
    requires Shaped(w.q) && n <= 32 && w'.q == w.q && w'.pumps == w.pumps
    ensures HeldBelow(w', n) == HeldBelow(w, n)
  {
    hide Held;
    if n > 0 {
      HeldSame(w, w', n - 1);
      HeldSameAt(w, w', n - 1);
    }
  }

  lemma HeldSameAt(w: World, w': World, i: nat)
    requires Shaped(w.q) && i < 32 && w'.q == w.q && w'.pumps == w.pumps
    ensures Held(w', i) == Held(w, i)
  {}

  /** A closed socket stays closed. */
  lemma {:induction false} StaysClosed(w: World, run: seq<Event>)
    requires Possible(w, run) && !w.open
    ensures !Final(w, run).open
    decreases |run|
  {
    if run != [] { StaysClosed(Apply(w, run[0]), run[1..]); }
  }

  lemma {:induction false} RunConserves(w: World, run: seq<Event>)
    requires Inv(w) && Conserved(w) && Possible(w, run) && Final(w, run).open
    ensures Inv(Final(w, run)) && Conserved(Final(w, run))
    decreases |run|
  {
    hide Inv, Conserved, Enabled, Apply;
    if run != [] {
      var w' := Apply(w, run[0]);
      StepKeepsInv(w, run[0]);
      assert w'.open by { if !w'.open { StaysClosed(w', run[1..]); } }
      StepConserves(w, run[0]);
      RunConserves(w', run[1..]);
    }
  }

  lemma {:induction false} NothingHeld(n: nat)
    requires n <= 32
    ensures HeldBelow(START, n) == multiset{}
  {
    if n > 0 { NothingHeld(n - 1); }
  }

  /** Under every interleaving of any number of threads, while the socket is open, the acceptable
      datagrams that arrived are, each exactly once: read, held in a slot, or still with the kernel. */
  lemma NothingLostOrDuplicated(run: seq<Event>)
    requires Possible(START, run) && Final(START, run).open
    ensures Shaped(Final(START, run).q) && Conserved(Final(START, run))
  {
    StartInv();
    NothingHeld(32);
    RunConserves(START, run);
  }

  // ----- what the sections under the lock do to the ready packets -----

  lemma FirstReady(q: Queue)
    requires WellFormed(q) && q.ready != []
    ensures ReadyPackets(q) != [] && ReadyPackets(q)[0] == q.data[q.ready[0]]
  {}

  lemma ClaimLeavesReady(q: Queue)
    requires WellFormed(q) && FirstFree(q.sizes) < 32
    ensures ReadyPackets(Claimed(q)) == ReadyPackets(q)
  {}

  lemma ReceiveLeavesReady(q: Queue, slot: int, d: Bytes)
    requires WellFormed(q) && 0 <= slot < 32 && q.sizes[slot] == LOCKED
    ensures ReadyPackets(q.(data := q.data[slot := d])) == ReadyPackets(q)
  {}

  lemma ReclaimLeavesReady(q: Queue, slot: int, r: int)
    requires WellFormed(q) && 0 <= slot < 32 && q.sizes[slot] == LOCKED && WellFormed(Reclaimed(q, slot, r, true))
    ensures ReadyPackets(Reclaimed(q, slot, r, true))
         == ReadyPackets(q) + if Publishes(q, slot, r) then [q.data[slot]] else []
  {}
}
