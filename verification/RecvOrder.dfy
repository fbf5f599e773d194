/** The order of reads, for any number of reading threads: ready packets, datagrams in the hands of
    pumps, and the kernel's datagrams are one FIFO as long as the pumps reclaim in turn. */
module RecvOrder {
  import opened Ipx
  import opened Options
  import opened Sequences
  import opened RecvQueue
  import opened RecvInterleavings
  import opened RecvDelivery

  /** The datagram thread t is back with from recv() and will publish. */
  ghost function Carried(w: World, t: nat): Option<Bytes> {
    if Carries(w, t) then Some(w.q.data[w.pumps[t].slot]) else None
  }

  ghost function Taken(d: Bytes): Option<Bytes> {
    if Acceptable(d) then Some(d) else None
  }

  function AsSeq(o: Option<Bytes>): seq<Bytes> {
    match o case None => [] case Some(d) => [d]
  }

  /** The threads that carry a datagram, in the order in which they received it. */
  ghost function NextHand(w: World, hand: seq<nat>, e: Event): seq<nat>
    requires Enabled(w, e)
  {
    match e
    case Receive(t) => if Acceptable(w.kernel[0]) then hand + [t] else hand
    case Reclaim(t, _) => Remove(hand, t)
    case _ => hand
  }

  ghost predicate HandSound(w: World, hand: seq<nat>) {
    Distinct(hand) && forall t :: t in hand <==> Carried(w, t).Some?
  }

  /** What they carry. */
  ghost function InHand(w: World, hand: seq<nat>): (s: seq<Bytes>)
    ensures |s| == |hand|
  {
    seq(|hand|, i requires 0 <= i < |hand| => match Carried(w, hand[i]) case Some(d) => d case None => [])
  }

  ghost function Fifo(w: World, hand: seq<nat>): seq<Bytes>
    requires WellFormed(w.q)
  {
    ReadyPackets(w.q) + InHand(w, hand) + Accepted(w.kernel)
  }

  /** A pump that publishes is the one that received first. */
  ghost predicate Turn(hand: seq<nat>, e: Event) {
    e.Reclaim? && e.tid in hand ==> e.tid == hand[0]
  }

  // ----- what an event does to what is carried, and to the ready packets -----

  lemma OthersCarry(w: World, w': World, t: nat, u: nat)
    requires Inv(w) && t in w.pumps && u != t
    requires (u in w'.pumps <==> u in w.pumps) && (u in w.pumps ==> w'.pumps[u] == w.pumps[u])
    requires |w'.q.data| == |w.q.data| && forall i :: 0 <= i < |w.q.data| && i != w.pumps[t].slot ==> w'.q.data[i] == w.q.data[i]
    ensures Carried(w', u) == Carried(w, u)
  {
    hide WellFormed, LockedByPumps, CountFree, LittleEndian16;
  }

  lemma ReceiverCarries(w: World, t: nat)
    requires Inv(w) && Enabled(w, Receive(t))
    ensures Carried(w, t) == None && Carried(Apply(w, Receive(t)), t) == Taken(w.kernel[0])
  {
    hide WellFormed, LockedByPumps, CountFree, LittleEndian16;
  }

  /** What thread u carries after an event. */
  ghost function CarriedNext(w: World, e: Event, u: nat): Option<Bytes>
    requires Enabled(w, e)
  {
    match e
    case Receive(t) => if u == t then Taken(w.kernel[0]) else Carried(w, u)
    case Reclaim(t, _) => if u == t then None else Carried(w, u)
    case _ => Carried(w, u)
  }

  lemma CarryStep(w: World, e: Event, u: nat)
    requires Inv(w) && Enabled(w, e)
    ensures Carried(Apply(w, e), u) == CarriedNext(w, e, u)
    ensures e.Receive? ==> Carried(w, e.tid) == None
  {
    hide WellFormed, LockedByPumps, CountFree, FirstFree, LittleEndian16, PumpsHoldSlots, Acceptable;
    InvIsShaped(w);
    match e
    case Receive(t) =>
      ReceiverCarries(w, t);
      if u != t { OthersCarry(w, Apply(w, e), t, u); }
    case _ =>
  }

  /** The ready packets after an event. */
  ghost function ReadyNext(w: World, e: Event): seq<Bytes>
    requires WellFormed(w.q) && Enabled(w, e)
  {
    match e
    case Reclaim(t, _) => ReadyPackets(w.q) + AsSeq(Carried(w, t))
    case Pop => ReadyPackets(w.q)[1..]
    case _ => ReadyPackets(w.q)
  }

  lemma ReadyStep(w: World, e: Event)
    requires Inv(w) && Enabled(w, e) && Apply(w, e).open
    ensures Inv(Apply(w, e)) && ReadyPackets(Apply(w, e).q) == ReadyNext(w, e)
    ensures e.Pop? ==> Apply(w, e).popped == w.popped + [ReadyPackets(w.q)[0]] && ReadyPackets(w.q) != []
    ensures !e.Pop? ==> Apply(w, e).popped == w.popped
  {
    hide WellFormed, LockedByPumps, PumpsHoldSlots, CountFree, FirstFree, LittleEndian16, ReadyPackets, Claimed, Popped, Reclaimed;
    StepKeepsInv(w, e);
    PumpOf(w, e);
    match e
    case Claim(t) => ClaimLeavesReady(w.q);
    case Receive(t) => ReceiveLeavesReady(w.q, w.pumps[t].slot, Apply(w, e).q.data[w.pumps[t].slot]);
    case Reclaim(t, found) => ReclaimLeavesReady(w.q, w.pumps[t].slot, w.pumps[t].r);
    case Pop =>
      PopKeepsWellFormed(w.q);
      FirstReady(w.q);
    case _ =>
  }

  lemma PumpOf(w: World, e: Event)
    requires Inv(w) && Enabled(w, e)
    ensures WellFormed(w.q)
    ensures (e.Receive? || e.Reclaim?) ==>
              e.tid in w.pumps && 0 <= w.pumps[e.tid].slot < 32 && w.q.sizes[w.pumps[e.tid].slot] == LOCKED
  {}

  // ----- the hand -----

  lemma {:induction false} RemoveDistinct(s: seq<nat>, x: nat)
    requires Distinct(s)
    ensures Distinct(Remove(s, x)) && forall y :: y in Remove(s, x) <==> y in s && y != x
  {
    if s != [] {
      assert s == [s[0]] + s[1..];
      if s[0] != x {
        RemoveDistinct(s[1..], x);
        forall j | 0 <= j < |Remove(s[1..], x)| ensures Remove(s[1..], x)[j] != s[0] {
          assert Remove(s[1..], x)[j] in Remove(s[1..], x);
        }
      } else {
        forall y | y in s[1..] ensures y != x {}
      }
    }
  }

  lemma HandStep(w: World, hand: seq<nat>, e: Event)
    requires Inv(w) && HandSound(w, hand) && Enabled(w, e)
    ensures HandSound(Apply(w, e), NextHand(w, hand, e))
  {
    hide Inv, Carried, Acceptable, Remove, Apply;
    var w', hand' := Apply(w, e), NextHand(w, hand, e);
    forall u ensures Carried(w', u) == CarriedNext(w, e, u) { CarryStep(w, e, u); }
    if e.Receive? { CarryStep(w, e, e.tid); }
    if e.Reclaim? { RemoveDistinct(hand, e.tid); }
  }

  lemma SameInHand(w: World, w': World, hand: seq<nat>)
    requires forall i :: 0 <= i < |hand| ==> Carried(w', hand[i]) == Carried(w, hand[i])
    ensures InHand(w', hand) == InHand(w, hand)
  {}

  lemma RemoveAbsent(s: seq<nat>, x: nat)
    requires x !in s
    ensures Remove(s, x) == s
  {
    if s != [] { assert s == [s[0]] + s[1..]; RemoveAbsent(s[1..], x); }
  }

  /** The datagrams in hand after an event that is in turn. */
  lemma InHandStep(w: World, hand: seq<nat>, e: Event)
    requires Inv(w) && HandSound(w, hand) && Enabled(w, e) && Turn(hand, e)
    ensures var h := InHand(w, hand);
            InHand(Apply(w, e), NextHand(w, hand, e)) ==
              match e
              case Receive(t) => h + AsSeq(Taken(w.kernel[0]))
              case Reclaim(t, _) => if t in hand then h[1..] else h
              case _ => h
    ensures e.Reclaim? && e.tid in hand ==> Carried(w, e.tid) == Some(InHand(w, hand)[0])
    ensures e.Reclaim? && e.tid !in hand ==> Carried(w, e.tid) == None
  {
    hide Inv, Carried, Acceptable, Apply, InHand;
    var w' := Apply(w, e);
    forall u ensures Carried(w', u) == CarriedNext(w, e, u) { CarryStep(w, e, u); }
    match e
    case Receive(t) =>
      CarryStep(w, e, t);
      SameInHand(w, w', hand);
      InHandSnoc(w', hand, t);
    case Reclaim(t, _) =>
      if t in hand {
        InHandTail(w, hand);
        assert hand == [hand[0]] + hand[1..];
        assert Remove(hand, t) == hand[1..];
        SameInHand(w, w', hand[1..]);
      } else {
        RemoveAbsent(hand, t);
        SameInHand(w, w', hand);
      }
    case _ => SameInHand(w, w', hand);
  }

  lemma InHandSnoc(w: World, hand: seq<nat>, t: nat)
    ensures Carried(w, t).Some? ==> InHand(w, hand + [t]) == InHand(w, hand) + [Carried(w, t).value]
  {}

  lemma InHandTail(w: World, hand: seq<nat>)
    requires hand != []
    ensures InHand(w, hand)[1..] == InHand(w, hand[1..])
    ensures Carried(w, hand[0]).Some? ==> InHand(w, hand)[0] == Carried(w, hand[0]).value
  {}

  /** Any number of threads: events in turn leave the FIFO alone, except that a read takes its head
      and an acceptable datagram that arrives goes to its end. */
  lemma FifoStep(w: World, hand: seq<nat>, e: Event)
    requires Inv(w) && HandSound(w, hand) && Enabled(w, e) && Turn(hand, e) && Apply(w, e).open
    ensures Inv(Apply(w, e)) && HandSound(Apply(w, e), NextHand(w, hand, e))
    ensures var w' := Apply(w, e);
            var f, f' := Fifo(w, hand), Fifo(w', NextHand(w, hand, e));
            match e
            case Arrive(d) => f' == f + AsSeq(Taken(d)) && w'.popped == w.popped
            case Pop => f != [] && f' == f[1..] && w'.popped == w.popped + [f[0]]
            case _ => f' == f && w'.popped == w.popped
  {
    hide Inv, Carried, HandSound, InHand, ReadyPackets, Accepted, Acceptable, Apply, NextHand, Taken, Turn;
    PumpOf(w, e);
    ReadyStep(w, e);
    HandStep(w, hand, e);
    InHandStep(w, hand, e);
    KernelStep(w, e);
    AfterIsWell(w, e);
    var r, h, k := ReadyPackets(w.q), InHand(w, hand), Accepted(w.kernel);
    match e
    case Arrive(d) => Rearrange(r, h, k, AsSeq(Taken(d)));
    case Receive(_) => Rearrange(r, h, Accepted(Apply(w, e).kernel), AsSeq(Taken(w.kernel[0])));
    case _ => Rearrange(r, h, k, []);
  }

  lemma AfterIsWell(w: World, e: Event)
    requires Enabled(w, e) && Inv(Apply(w, e))
    ensures WellFormed(Apply(w, e).q)
  {}

  lemma Rearrange(r: seq<Bytes>, h: seq<Bytes>, k: seq<Bytes>, x: seq<Bytes>)
    ensures r + h + (k + x) == r + h + k + x
    ensures r + (h + x) + k == r + h + (x + k)
    ensures h != [] ==> r + [h[0]] + h[1..] + k == r + h + k
    ensures r != [] ==> r[1..] + h + k == (r + h + k)[1..] && (r + h + k)[0] == r[0]
    ensures r + [] == r
  {
    if h != [] { assert h == [h[0]] + h[1..]; }
  }

  /** What an event does to the kernel's acceptable datagrams and to those that arrived. */
  lemma KernelStep(w: World, e: Event)
    requires Enabled(w, e)
    ensures var w' := Apply(w, e);
            match e
            case Arrive(d) => Accepted(w'.kernel) == Accepted(w.kernel) + AsSeq(Taken(d))
                              && Accepted(w'.arrived) == Accepted(w.arrived) + AsSeq(Taken(d))
            case Receive(_) => Accepted(w.kernel) == AsSeq(Taken(w.kernel[0])) + Accepted(w'.kernel) && w'.arrived == w.arrived
            case _ => w'.kernel == w.kernel && w'.arrived == w.arrived
  {
    hide Acceptable;
    match e
    case Arrive(d) =>
      AcceptedSnoc(w.kernel, d);
      AcceptedSnoc(w.arrived, d);
    case Receive(_) => AcceptedFirst(w.kernel);
    case _ =>
  }

  // ----- runs in turn -----

  /** Every pump of the run that publishes is the one that received first. */
  ghost predicate InTurn(w: World, hand: seq<nat>, run: seq<Event>)
    requires Possible(w, run)
    decreases |run|
  {
    run == [] || (Turn(hand, run[0]) && InTurn(Apply(w, run[0]), NextHand(w, hand, run[0]), run[1..]))
  }

  ghost function LastHand(w: World, hand: seq<nat>, run: seq<Event>): seq<nat>
    requires Possible(w, run)
    decreases |run|
  {
    if run == [] then hand else LastHand(Apply(w, run[0]), NextHand(w, hand, run[0]), run[1..])
  }

  /** What was read, followed by the FIFO, is what arrived and is acceptable, in order. */
  ghost predicate InOrder(w: World, hand: seq<nat>)
    requires WellFormed(w.q)
  {
    w.popped + Fifo(w, hand) == Accepted(w.arrived)
  }

  lemma InvWell(w: World)
    requires Inv(w)
    ensures WellFormed(w.q)
  {}

  /** An event in turn keeps the order. */
  lemma OrderStep(w: World, hand: seq<nat>, e: Event)
    requires Inv(w) && HandSound(w, hand) && Enabled(w, e) && Turn(hand, e) && Apply(w, e).open
    requires WellFormed(w.q) && InOrder(w, hand)
    ensures Inv(Apply(w, e)) && HandSound(Apply(w, e), NextHand(w, hand, e))
    ensures WellFormed(Apply(w, e).q) && InOrder(Apply(w, e), NextHand(w, hand, e))
  {
    hide Inv, WellFormed, Fifo, Accepted, HandSound, Taken, AsSeq, NextHand, Apply;
    FifoStep(w, hand, e);
    KernelStep(w, e);
    AfterIsWell(w, e);
    var f := Fifo(w, hand);
    match e
    case Arrive(d) => Prefix(w.popped, f, AsSeq(Taken(d)));
    case Pop => HeadMoves(w.popped, f);
    case _ =>
  }

  /** Read or ready: what has its place in the order for good. */
  ghost function Placed(w: World): seq<Bytes>
    requires WellFormed(w.q)
  {
    w.popped + ReadyPackets(w.q)
  }

  lemma PlacedGrows(w: World, e: Event)
    requires Inv(w) && Enabled(w, e) && Apply(w, e).open
    ensures Inv(Apply(w, e)) && WellFormed(w.q) && WellFormed(Apply(w, e).q)
    ensures Placed(w) <= Placed(Apply(w, e)) && Accepted(w.arrived) <= Accepted(Apply(w, e).arrived)
    ensures e.Reclaim? ==> Placed(Apply(w, e)) == Placed(w) + AsSeq(Carried(w, e.tid))
  {
    hide Inv, ReadyPackets, Accepted, Taken, AsSeq, Carried, Apply;
    InvWell(w);
    ReadyStep(w, e);
    KernelStep(w, e);
    AfterIsWell(w, e);
    var r := ReadyPackets(w.q);
    match e
    case Reclaim(t, _) => Prefix(w.popped, r, AsSeq(Carried(w, t)));
    case Pop => HeadMoves(w.popped, r);
    case _ =>
  }

  lemma Prefix(p: seq<Bytes>, r: seq<Bytes>, x: seq<Bytes>)
    ensures p + (r + x) == p + r + x && p + r <= p + (r + x)
  {}

  lemma HeadMoves(p: seq<Bytes>, r: seq<Bytes>)
    requires r != []
    ensures p + [r[0]] + r[1..] == p + r
  {
    assert r == [r[0]] + r[1..];
  }

  lemma {:induction false} RunGrows(w: World, hand: seq<nat>, run: seq<Event>)
    requires Inv(w) && HandSound(w, hand) && Possible(w, run) && Final(w, run).open
    ensures Inv(Final(w, run)) && HandSound(Final(w, run), LastHand(w, hand, run))
    ensures WellFormed(w.q) && WellFormed(Final(w, run).q)
    ensures Placed(w) <= Placed(Final(w, run)) && Accepted(w.arrived) <= Accepted(Final(w, run).arrived)
    decreases |run|
  {
    hide Inv, HandSound, WellFormed, Placed, Accepted, Apply, NextHand, Enabled;
    InvWell(w);
    if run != [] {
      OpenBefore(w, run);
      PlacedGrows(w, run[0]);
      HandStep(w, hand, run[0]);
      RunGrows(Apply(w, run[0]), NextHand(w, hand, run[0]), run[1..]);
    }
  }

  lemma OpenBefore(w: World, run: seq<Event>)
    requires Possible(w, run) && run != [] && Final(w, run).open
    ensures Enabled(w, run[0]) && Possible(Apply(w, run[0]), run[1..]) && Apply(w, run[0]).open
  {
    if !Apply(w, run[0]).open { StaysClosed(Apply(w, run[0]), run[1..]); }
  }

  /** A pump that publishes out of turn puts its datagram, for good, where an older one was due. */
  lemma OutOfTurnShows(w: World, hand: seq<nat>, run: seq<Event>)
    requires Inv(w) && HandSound(w, hand) && Possible(w, run) && Final(w, run).open
    requires WellFormed(w.q) && InOrder(w, hand) && run != [] && !Turn(hand, run[0])
    requires Distinct(Accepted(Final(w, run).arrived))
    ensures Inv(Final(w, run)) && WellFormed(Final(w, run).q)
    ensures !InOrder(Final(w, run), LastHand(w, hand, run))
  {
    hide Inv, HandSound, ReadyPackets, Accepted, Apply, NextHand, Enabled, Carried, InHand, Possible, Final;
    var e := run[0];
    OpenBefore(w, run);
    FinalStep(w, hand, run);
    RunGrows(w, hand, run);
    PlacedGrows(w, e);
    HandStep(w, hand, e);
    RunGrows(Apply(w, e), NextHand(w, hand, e), run[1..]);
    var i :| 0 < i < |hand| && hand[i] == e.tid;
    var due, at := Accepted(w.arrived), |Placed(w)|;
    var final, arrived := Final(w, run), Accepted(Final(w, run).arrived);
    InHandAt(w, hand, i);
    assert Placed(Apply(w, e)) == Placed(w) + [InHand(w, hand)[i]];
    assert arrived[at] == due[at] && arrived[at + i] == due[at + i];
    assert Placed(final)[at] == InHand(w, hand)[i];
    assert (final.popped + Fifo(final, LastHand(w, hand, run)))[at] == Placed(final)[at];
  }

  lemma FinalStep(w: World, hand: seq<nat>, run: seq<Event>)
    requires Possible(w, run) && run != []
    ensures Enabled(w, run[0]) && Possible(Apply(w, run[0]), run[1..])
    ensures Final(w, run) == Final(Apply(w, run[0]), run[1..])
    ensures LastHand(w, hand, run) == LastHand(Apply(w, run[0]), NextHand(w, hand, run[0]), run[1..])
  {}

  lemma InHandAt(w: World, hand: seq<nat>, i: nat)
    requires HandSound(w, hand) && i < |hand|
    ensures Carried(w, hand[i]) == Some(InHand(w, hand)[i])
  {
    assert hand[i] in hand;
  }

  /** From an ordered state: when the arrivals all differ, a run keeps the order if and only if it
      is in turn; when it is in turn it keeps it anyway. */
  lemma {:induction false} OrderIff(w: World, hand: seq<nat>, run: seq<Event>)
    requires Inv(w) && HandSound(w, hand) && Possible(w, run) && Final(w, run).open
    requires WellFormed(w.q) && InOrder(w, hand)
    ensures Inv(Final(w, run)) && HandSound(Final(w, run), LastHand(w, hand, run)) && WellFormed(Final(w, run).q)
    ensures InTurn(w, hand, run) ==> InOrder(Final(w, run), LastHand(w, hand, run))
    ensures Distinct(Accepted(Final(w, run).arrived)) && InOrder(Final(w, run), LastHand(w, hand, run)) ==> InTurn(w, hand, run)
    decreases |run|
  {
    hide Inv, HandSound, WellFormed, InOrder, Accepted, Apply, NextHand, Enabled, Turn;
    RunGrows(w, hand, run);
    if run != [] {
      OpenBefore(w, run);
      if Turn(hand, run[0]) {
        OrderStep(w, hand, run[0]);
        OrderIff(Apply(w, run[0]), NextHand(w, hand, run[0]), run[1..]);
      } else if Distinct(Accepted(Final(w, run).arrived)) {
        OutOfTurnShows(w, hand, run);
      }
    }
  }

  lemma StartOrdered()
    ensures Inv(START) && HandSound(START, []) && WellFormed(START.q) && InOrder(START, [])
  {
    StartInv();
  }

  /** Any number of threads, as long as the socket is open and the acceptable datagrams that arrived
      all differ: what was read, what is ready, in hand and with the kernel is in order of arrival
      if and only if no pump published before one that had received earlier. */
  lemma OrderKeptIff(run: seq<Event>)
    requires Possible(START, run) && Final(START, run).open
    requires Distinct(Accepted(Final(START, run).arrived))
    ensures WellFormed(Final(START, run).q) && HandSound(Final(START, run), LastHand(START, [], run))
    ensures InOrder(Final(START, run), LastHand(START, [], run)) <==> InTurn(START, [], run)
  {
    hide Inv, HandSound, WellFormed, InOrder, Accepted, Apply, NextHand, Enabled, Turn;
    StartOrdered();
    OrderIff(START, [], run);
  }

  /** Only thread 0 pumps. */
  ghost predicate OneReader(e: Event) {
    match e
    case Claim(t) => t == 0
    case Receive(t) => t == 0
    case RecvError(t) => t == 0
    case Reclaim(t, _) => t == 0
    case _ => true
  }

  lemma OneReaderStep(w: World, hand: seq<nat>, e: Event)
    requires Inv(w) && HandSound(w, hand) && Enabled(w, e) && OneReader(e) && forall t :: t in hand ==> t == 0
    ensures Turn(hand, e)
    ensures HandSound(Apply(w, e), NextHand(w, hand, e)) && forall t :: t in NextHand(w, hand, e) ==> t == 0
  {
    HandStep(w, hand, e);
    assert hand != [] ==> hand[0] in hand;
    if e.Reclaim? { RemoveDistinct(hand, e.tid); }
  }

  lemma {:induction false} OneReaderInTurn(w: World, hand: seq<nat>, run: seq<Event>)
    requires Inv(w) && HandSound(w, hand) && Possible(w, run)
    requires (forall t :: t in hand ==> t == 0) && forall i :: 0 <= i < |run| ==> OneReader(run[i])
    ensures InTurn(w, hand, run)
    decreases |run|
  {
    hide Inv, HandSound, Apply, NextHand, Enabled, OneReader, Turn;
    if run != [] {
      OneReaderStep(w, hand, run[0]);
      StepKeepsInv(w, run[0]);
      OneReaderInTurn(Apply(w, run[0]), NextHand(w, hand, run[0]), run[1..]);
    }
  }

  /** With one reading thread the order is always kept. */
  lemma ReadsInArrivalOrder(run: seq<Event>)
    requires Possible(START, run) && Final(START, run).open
    requires forall i :: 0 <= i < |run| ==> OneReader(run[i])
    ensures WellFormed(Final(START, run).q) && InOrder(Final(START, run), LastHand(START, [], run))
  {
    hide Inv, HandSound, WellFormed, InOrder, Accepted, Apply, NextHand, Enabled, Turn, OneReader;
    StartOrdered();
    OneReaderInTurn(START, [], run);
    OrderIff(START, [], run);
  }

  // ----- two reading threads can swap two datagrams -----

  /** Two datagrams received in order by two threads, neither of which has the lock back yet. */
  ghost predicate BothInHand(w: World, a: Bytes, b: Bytes) {
    && w.open && w.popped == [] && Shaped(w.q) && w.q.ready == []
    && w.q.data[0] == a && w.q.data[1] == b
    && w.pumps == map[0 := Returned(0, |a|), 1 := Returned(1, |b|)]
  }

  lemma OneMoreEvent(w: World, run: seq<Event>, e: Event)
    requires Possible(w, run) && Enabled(Final(w, run), e)
    ensures Possible(w, run + [e]) && Final(w, run + [e]) == Apply(Final(w, run), e)
    decreases |run|
  {
    hide Enabled, Apply;
    if run == [] {
      assert run + [e] == [e];
    } else {
      assert (run + [e])[0] == run[0] && (run + [e])[1..] == run[1..] + [e];
      OneMoreEvent(Apply(w, run[0]), run[1..], e);
    }
  }

  lemma TwoReceive(a: Bytes, b: Bytes, run: seq<Event>)
    requires Acceptable(a) && Acceptable(b)
    requires run == [Arrive(a), Arrive(b), Claim(0), Claim(1), Receive(0), Receive(1)]
    ensures Possible(START, run) && BothInHand(Final(START, run), a, b)
  {
    hide Possible, Final, LittleEndian16, Apply, Enabled, FirstFree, BothInHand;
    NoEvents(START);
    var w2 := TwoArrive(a, b);
    var w4 := TwoClaim(w2, a, b);
    BothReceive(w4, a, b);
    OneMoreEvent(START, [], Arrive(a));
    assert [] + [Arrive(a)] == [Arrive(a)];
    OneMoreEvent(START, [Arrive(a)], Arrive(b));
    assert [Arrive(a)] + [Arrive(b)] == [Arrive(a), Arrive(b)];
    OneMoreEvent(START, [Arrive(a), Arrive(b)], Claim(0));
    assert [Arrive(a), Arrive(b)] + [Claim(0)] == [Arrive(a), Arrive(b), Claim(0)];
    OneMoreEvent(START, [Arrive(a), Arrive(b), Claim(0)], Claim(1));
    assert [Arrive(a), Arrive(b), Claim(0)] + [Claim(1)] == [Arrive(a), Arrive(b), Claim(0), Claim(1)];
    OneMoreEvent(START, [Arrive(a), Arrive(b), Claim(0), Claim(1)], Receive(0));
    assert [Arrive(a), Arrive(b), Claim(0), Claim(1)] + [Receive(0)] == [Arrive(a), Arrive(b), Claim(0), Claim(1), Receive(0)];
    OneMoreEvent(START, [Arrive(a), Arrive(b), Claim(0), Claim(1), Receive(0)], Receive(1));
    assert [Arrive(a), Arrive(b), Claim(0), Claim(1), Receive(0)] + [Receive(1)] == [Arrive(a), Arrive(b), Claim(0), Claim(1), Receive(0), Receive(1)];
  }

  lemma NoEvents(w: World)
    ensures Possible(w, []) && Final(w, []) == w
  {}

  lemma TwoArrive(a: Bytes, b: Bytes) returns (w: World)
    ensures Enabled(START, Arrive(a)) && Enabled(Apply(START, Arrive(a)), Arrive(b))
    ensures w == Apply(Apply(START, Arrive(a)), Arrive(b))
    ensures w.q == START.q && w.open && w.pumps == map[] && w.kernel == [a, b] && w.popped == []
  {
    w := Apply(Apply(START, Arrive(a)), Arrive(b));
  }

  lemma TwoClaim(w: World, a: Bytes, b: Bytes) returns (r: World)
    requires w.q == START.q && w.open && w.pumps == map[] && w.kernel == [a, b] && w.popped == []
    ensures Enabled(w, Claim(0)) && Enabled(Apply(w, Claim(0)), Claim(1)) && r == Apply(Apply(w, Claim(0)), Claim(1))
    ensures r.open && r.popped == [] && r.kernel == [a, b] && r.pumps == map[0 := Blocked(0), 1 := Blocked(1)]
    ensures Shaped(r.q) && r.q.ready == []
  {
    var s := w.q.sizes;
    assert FirstFree(s) == 0;
    var s' := s[0 := LOCKED];
    assert s'[1..][0] == FREE && FirstFree(s'[1..]) == 0;
    assert FirstFree(s') == 1;
    r := Apply(Apply(w, Claim(0)), Claim(1));
  }

  lemma BothReceive(w: World, a: Bytes, b: Bytes)
    requires Acceptable(a) && Acceptable(b)
    requires w.open && w.popped == [] && w.kernel == [a, b] && w.pumps == map[0 := Blocked(0), 1 := Blocked(1)]
    requires Shaped(w.q) && w.q.ready == []
    ensures Enabled(w, Receive(0)) && Enabled(Apply(w, Receive(0)), Receive(1))
    ensures BothInHand(Apply(Apply(w, Receive(0)), Receive(1)), a, b)
  {
    hide LittleEndian16;
    var w' := Apply(w, Receive(0));
    assert w'.kernel == [b] && w'.kernel[1..] == [];
  }

  /** The thread that received second publishes first, and its datagram is read first. */
  lemma SwappedReads(a: Bytes, b: Bytes, run: seq<Event>)
    requires Acceptable(a) && Acceptable(b)
    requires run == [Arrive(a), Arrive(b), Claim(0), Claim(1), Receive(0), Receive(1),
                     Reclaim(1, true), Reclaim(0, true), Pop, Pop]
    ensures Possible(START, run) && Final(START, run).open && Final(START, run).popped == [b, a]
  {
    hide Possible, Final, LittleEndian16, Apply, Enabled, FirstFree, BothInHand;
    var six := run[..6];
    TwoReceive(a, b, six);
    PublishSwapped(Final(START, six), a, b);
    OneMoreEvent(START, six, Reclaim(1, true));
    OneMoreEvent(START, six + [Reclaim(1, true)], Reclaim(0, true));
    OneMoreEvent(START, six + [Reclaim(1, true)] + [Reclaim(0, true)], Pop);
    OneMoreEvent(START, six + [Reclaim(1, true)] + [Reclaim(0, true)] + [Pop], Pop);
    assert six + [Reclaim(1, true)] + [Reclaim(0, true)] + [Pop] + [Pop] == run;
  }

  lemma PublishSwapped(w: World, a: Bytes, b: Bytes)
    requires BothInHand(w, a, b) && Acceptable(a) && Acceptable(b)
    ensures Enabled(w, Reclaim(1, true))
    ensures var w1 := Apply(w, Reclaim(1, true));
            Enabled(w1, Reclaim(0, true)) &&
            var w2 := Apply(w1, Reclaim(0, true));
            Enabled(w2, Pop) &&
            var w3 := Apply(w2, Pop);
            Enabled(w3, Pop) && Apply(w3, Pop).open && Apply(w3, Pop).popped == [b, a]
  {
    hide LittleEndian16;
    var w1 := Apply(w, Reclaim(1, true));
    assert w1.q.ready == [1] && w1.pumps == map[0 := Returned(0, |a|)];
    var w2 := Apply(w1, Reclaim(0, true));
    assert w2.q.ready == [1, 0] && w2.q.data == w.q.data;
    var w3 := Apply(w2, Pop);
    assert w3.q.ready == [0] && w3.popped == [b];
  }
}
