/** What coalescing guarantees over whole runs: conservation, order, size and delay bounds. */
module CoalesceProofs {
  import opened Ipx
  import opened Sequences
  import opened Coalesce

  // ----- what has left for a destination, and what is still queued -----

  function PacketsOf(d: Datagram): seq<Bytes> {
    match d case Direct(_, p) => [p] case Envelope(_, _, ps) => ps
  }

  /** The packets for k on the wire, in the order they left. */
  function OutFor(wire: seq<Datagram>, k: Key): seq<Bytes> {
    if wire == [] then []
    else
      var d := wire[|wire| - 1];
      OutFor(wire[..|wire| - 1], k) + if d.key == k then PacketsOf(d) else []
  }

  function QueueOf(s: State, k: Key): seq<Bytes> {
    if k in s.table then s.table[k].queue else []
  }

  /** Left, then still queued: the order in which a peer will see them. */
  function Stream(s: State, k: Key): seq<Bytes> {
    OutFor(s.wire, k) + QueueOf(s, k)
  }

  lemma OutSnoc(wire: seq<Datagram>, d: Datagram, k: Key)
    ensures OutFor(wire + [d], k) == OutFor(wire, k) + if d.key == k then PacketsOf(d) else []
  {}

  // ----- the invariant -----

  /** The payload buffer is large enough and no envelope is empty. */
  ghost predicate Bounded(s: State) {
    forall k :: k in s.table && s.table[k].queue != [] ==>
      EnvelopeHeader(k, s.table[k].header) && IPX_HEADER < Used(s.table[k]) <= MAX_SIZE
  }

  ghost predicate Inv(s: State) { Shaped(s) && Linked(s) && Bounded(s) }

  /** Every envelope on the wire carries a packet and fits the size limit. */
  ghost predicate WireBounded(wire: seq<Datagram>) {
    forall i :: 0 <= i < |wire| && wire[i].Envelope? ==>
      EnvelopeHeader(wire[i].key, wire[i].header) && wire[i].packets != [] && IPX_HEADER + TotalLen(wire[i].packets) <= MAX_SIZE
  }

  // ----- the elementary steps -----

  /** Switching a destination's history and state touches no payload. */
  lemma NoteStep(s: State, k: Key, now: nat)
    requires Inv(s)
    ensures var s1 := s.(table := s.table[k := Noted(s, k, now)]);
            Inv(s1) && forall x :: QueueOf(s1, x) == QueueOf(s, x)
  {
    var s1 := s.(table := s.table[k := Noted(s, k, now)]);
    forall x | x in s1.table && s1.table[x].queue != [] ensures x in s.pending && x in s.table {}
  }

  lemma FlushStep(s: State, k: Key)
    requires Inv(s) && k in s.table && s.table[k].queue != []
    ensures Inv(Flush(s, k))
    ensures forall x :: Stream(Flush(s, k), x) == Stream(s, x)
    ensures WireBounded(s.wire) ==> WireBounded(Flush(s, k).wire)
  {
    hide EnvelopeHeader, Linked, Remove, TotalLen, OutFor;
    FlushKeepsLinked(s, k);
    var e := Envelope(k, s.table[k].header, s.table[k].queue);
    forall x ensures Stream(Flush(s, k), x) == Stream(s, x) {
      OutSnoc(s.wire, e, x);
    }
  }

  lemma TotalLenSnoc(ps: seq<Bytes>, p: Bytes)
    ensures TotalLen(ps + [p]) == TotalLen(ps) + |p|
  {}

  lemma AppendStep(s: State, k: Key, packet: Bytes, now: nat, header: Bytes)
    requires Inv(s) && k in s.table && Fits(s.table[k], |packet|) && |packet| > 0 && EnvelopeHeader(k, header)
    ensures var s' := Append(s, k, packet, now, header);
            && Inv(s') && s'.wire == s.wire
            && forall x :: Stream(s', x) == Stream(s, x) + if x == k then [packet] else []
  {
    hide Append, Stream, QueueOf, Fits, EnvelopeHeader, Linked, Bounded, Shaped;
    AppendKeepsLinked(s, k, packet, now, header);
    AppendKeepsBounded(s, k, packet, now, header);
    forall x ensures Stream(Append(s, k, packet, now, header), x) == Stream(s, x) + if x == k then [packet] else [] {
      AppendToStream(s, k, packet, now, header, x);
    }
  }

  lemma AppendToStream(s: State, k: Key, packet: Bytes, now: nat, header: Bytes, x: Key)
    requires k in s.table
    ensures Stream(Append(s, k, packet, now, header), x) == Stream(s, x) + if x == k then [packet] else []
    ensures Append(s, k, packet, now, header).wire == s.wire
  {}

  lemma AppendKeepsBounded(s: State, k: Key, packet: Bytes, now: nat, header: Bytes)
    requires Shaped(s) && Bounded(s) && k in s.table
    requires Fits(s.table[k], |packet|) && |packet| > 0 && EnvelopeHeader(k, header)
    ensures Shaped(Append(s, k, packet, now, header)) && Bounded(Append(s, k, packet, now, header))
    ensures Append(s, k, packet, now, header).wire == s.wire
  {
    hide EnvelopeHeader, TotalLen;
    var q := s.table[k].queue;
    TotalLenSnoc(q, packet);
    if q == [] {
      assert q + [packet] == [packet];
      EmptyTotal(q);
    }
  }

  lemma EmptyTotal(q: seq<Bytes>)
    requires q == []
    ensures TotalLen(q) == 0
  {}

  lemma AppendKeepsLinked(s: State, k: Key, packet: Bytes, now: nat, header: Bytes)
    requires Linked(s) && k in s.table
    ensures Linked(Append(s, k, packet, now, header))
  {}

  lemma DirectStep(s: State, k: Key, packet: Bytes)
    requires Inv(s)
    ensures var s' := s.(wire := s.wire + [Direct(k, packet)]);
            && Inv(s') && (WireBounded(s.wire) ==> WireBounded(s'.wire))
            && forall x :: Stream(s', x) == if x == k then OutFor(s.wire, k) + [packet] + QueueOf(s, k) else Stream(s, x)
  {
    forall x { OutSnoc(s.wire, Direct(k, packet), x); }
  }

  // ----- coalesce_send as a whole -----

  /** The packet leaves on its own while older packets stay queued: the destination's payload is
      not yet overdue, and either coalescing has just gone off or the packet is too large both to
      join the payload and to flush it. */
  predicate Overtakes(s: State, k: Key, size: nat, now: nat, tracked: bool)
    requires Shaped(s)
  {
    && QueueOf(s, k) != []
    && (!tracked || (!Overdue(s.table[k], now)
        && (!Verdict(Registered(s.table[k], now), now) || (size >= MAX_SIZE / 2 && !Fits(s.table[k], size)))))
  }

  /** The effect on one destination's packet order of a send that is not overtaking, or is. */
  ghost predicate SendEffect(s: State, s': State, k: Key, packet: Bytes, overtakes: bool) {
    && (forall x :: x != k ==> Stream(s', x) == Stream(s, x))
    && if overtakes
       then QueueOf(s', k) == QueueOf(s, k) && OutFor(s'.wire, k) == OutFor(s.wire, k) + [packet]
       else Stream(s', k) == Stream(s, k) + [packet]
  }

  lemma OverdueStep(s: State, k: Key, now: nat)
    requires Inv(s) && k in s.table
    ensures Inv(FlushIfOverdue(s, k, now))
    ensures forall x :: Stream(FlushIfOverdue(s, k, now), x) == Stream(s, x)
    ensures WireBounded(s.wire) ==> WireBounded(FlushIfOverdue(s, k, now).wire)
  {
    if Overdue(s.table[k], now) { FlushStep(s, k); }
  }

  /** The two states a send passes through before its packet is placed. */
  lemma RoomStep(s: State, k: Key, size: nat, now: nat)
    requires Inv(s)
    ensures var s1 := s.(table := s.table[k := Noted(s, k, now)]);
            var s2 := RoomMade(s1, k, size);
            && Inv(s2) && k in s2.table && (WireBounded(s.wire) ==> WireBounded(s2.wire))
            && (forall x :: Stream(s2, x) == Stream(s, x))
            && (Queues(s, k, size, now) ==> Fits(s2.table[k], size))
            && (!Queues(s, k, size, now) ==> s2.table == s1.table && s2.wire == s.wire && s2.pending == s.pending)
  {
    assert Shaped(s);
    hide Inv, Stream, Noted, Verdict;
    NoteStep(s, k, now);
    var s1 := s.(table := s.table[k := Noted(s, k, now)]);
    assert forall x :: Stream(s1, x) == Stream(s, x) by { SameStream(s, s1); }
    if MakesRoom(s1.table[k], size) {
      MakesRoomHasPayload(s1.table[k], size);
      FlushStep(s1, k);
    }
  }

  lemma SameStream(s: State, s1: State)
    requires s1.wire == s.wire && forall x :: QueueOf(s1, x) == QueueOf(s, x)
    ensures forall x :: Stream(s1, x) == Stream(s, x)
  {}

  lemma ShapedByInv(s: State)
    requires Inv(s)
    ensures Shaped(s)
  {}

  lemma StillInTable(s: State, k: Key, packet: Bytes, now: nat, header: Bytes)
    requires k in s.table
    ensures k in Append(s, k, packet, now, header).table
  {}

  lemma QueuedSend(s: State, k: Key, packet: Bytes, now: nat, header: Bytes)
    requires Inv(s) && |packet| > 0 && EnvelopeHeader(k, header) && Queues(s, k, |packet|, now)
    ensures var s' := SendTracked(s, k, packet, now, header);
            && Inv(s') && (WireBounded(s.wire) ==> WireBounded(s'.wire))
            && SendEffect(s, s', k, packet, false)
  {
    hide Inv, Stream, Noted, Verdict, RoomMade, Append, Fits, Queues, FlushIfOverdue, WireBounded, EnvelopeHeader;
    ShapedByInv(s);
    RoomStep(s, k, |packet|, now);
    var s2 := RoomMade(s.(table := s.table[k := Noted(s, k, now)]), k, |packet|);
    AppendStep(s2, k, packet, now, header);
    var s3 := Append(s2, k, packet, now, header);
    StillInTable(s2, k, packet, now, header);
    OverdueStep(s3, k, now);
  }

  lemma DirectSend(s: State, k: Key, packet: Bytes, now: nat, header: Bytes)
    requires Inv(s) && |packet| > 0 && EnvelopeHeader(k, header) && !Queues(s, k, |packet|, now)
    ensures var s' := SendTracked(s, k, packet, now, header);
            && Inv(s') && (WireBounded(s.wire) ==> WireBounded(s'.wire))
            && SendEffect(s, s', k, packet, Overtakes(s, k, |packet|, now, true))
  {
    hide Inv, Noted, Verdict, RoomMade, WireBounded, Fits, Queues, OutFor, EnvelopeHeader, Flush;
    ShapedByInv(s);
    RoomStep(s, k, |packet|, now);
    var s1 := s.(table := s.table[k := Noted(s, k, now)]);
    var s2 := RoomMade(s1, k, |packet|);
    NotedPayload(s, k, now);
    NotQueuedBecause(s, k, |packet|, now);
    OverdueStep(s2, k, now);
    FlushEmpties(s2, k, now);
    DirectStep(FlushIfOverdue(s2, k, now), k, packet);
    OutSnoc(FlushIfOverdue(s2, k, now).wire, Direct(k, packet), k);
  }

  lemma NotedPayload(s: State, k: Key, now: nat)
    requires Shaped(s)
    ensures Noted(s, k, now).queue == QueueOf(s, k)
    ensures k in s.table ==>
              Noted(s, k, now).payloadTime == s.table[k].payloadTime && Noted(s, k, now).header == s.table[k].header
  {}

  lemma FlushEmpties(s: State, k: Key, now: nat)
    requires k in s.table
    ensures Overdue(s.table[k], now) ==> QueueOf(FlushIfOverdue(s, k, now), k) == []
    ensures !Overdue(s.table[k], now) ==> FlushIfOverdue(s, k, now) == s
  {}

  /** A packet is sent on its own exactly when coalescing is off or it is large and does not fit. */
  lemma NotQueuedBecause(s: State, k: Key, size: nat, now: nat)
    requires Inv(s)
    ensures var d := if k in s.table then s.table[k] else FRESH;
            !Queues(s, k, size, now)
            <==> !Verdict(Registered(d, now), now) || (size >= MAX_SIZE / 2 && !Fits(d, size))
  {}

  /** Every send leaves or queues exactly its packet, behind everything older unless it overtakes. */
  lemma SendStep(s: State, k: Key, packet: Bytes, now: nat, header: Bytes, tracked: bool)
    requires Inv(s) && |packet| > 0 && EnvelopeHeader(k, header)
    ensures var s' := Send(s, k, packet, now, header, tracked);
            && Inv(s') && (WireBounded(s.wire) ==> WireBounded(s'.wire))
            && SendEffect(s, s', k, packet, Overtakes(s, k, |packet|, now, tracked))
  {
    if !tracked {
      DirectStep(s, k, packet);
    } else if Queues(s, k, |packet|, now) {
      QueuedSend(s, k, packet, now, header);
      assert !Overtakes(s, k, |packet|, now, true) by { NotQueuedBecause(s, k, |packet|, now); }
    } else {
      DirectSend(s, k, packet, now, header);
    }
  }

  // ----- flushing loops -----

  lemma {:induction false} FlushWaitingStep(s: State, now: nat)
    requires Inv(s)
    ensures Inv(FlushWaiting(s, now)) && (WireBounded(s.wire) ==> WireBounded(FlushWaiting(s, now).wire))
    ensures forall x :: Stream(FlushWaiting(s, now), x) == Stream(s, x)
    decreases |s.pending|
  {
    if s.pending != [] && Overdue(s.table[s.pending[0]], now) {
      FlushStep(s, s.pending[0]);
      FlushKeepsLinked(s, s.pending[0]);
      FlushWaitingStep(Flush(s, s.pending[0]), now);
    }
  }

  lemma {:induction false} FlushAllStep(s: State)
    requires Inv(s)
    ensures Inv(FlushAll(s)) && (WireBounded(s.wire) ==> WireBounded(FlushAll(s).wire))
    ensures forall x :: Stream(FlushAll(s), x) == Stream(s, x)
    ensures FlushAll(s).pending == [] && forall x :: QueueOf(FlushAll(s), x) == []
    decreases |s.pending|
  {
    if s.pending != [] {
      FlushStep(s, s.pending[0]);
      FlushKeepsLinked(s, s.pending[0]);
      FlushAllStep(Flush(s, s.pending[0]));
    }
  }

  /** coalesce_cleanup leaves nothing queued, pending or tracked, having sent everything in order. */
  lemma CleanupStep(s: State)
    requires Inv(s)
    ensures var s' := Cleanup(s);
            && Inv(s') && (WireBounded(s.wire) ==> WireBounded(s'.wire))
            && s'.table == map[] && s'.pending == []
            && forall x :: OutFor(s'.wire, x) == Stream(s, x) == Stream(s', x)
  {
    FlushAllStep(s);
    forall x ensures OutFor(Cleanup(s).wire, x) == Stream(s, x) {
      assert Stream(FlushAll(s), x) == Stream(s, x) && QueueOf(FlushAll(s), x) == [];
    }
  }

  // ----- runs -----

  /** A call into the coalescer. Packets are never empty: they begin with their IPX header. */
  datatype Call =
    | SendCall(key: Key, packet: Bytes, now: nat, header: Bytes, tracked: bool)
    | FlushWaitingCall(now: nat)
    | CleanupCall

  ghost predicate Legal(c: Call) {
    c.SendCall? ==> |c.packet| > 0 && EnvelopeHeader(c.key, c.header)
  }

  function Apply(s: State, c: Call): State
    requires Inv(s)
  {
    match c
    case SendCall(k, p, now, h, tracked) => Send(s, k, p, now, h, tracked)
    case FlushWaitingCall(now) => FlushWaiting(s, now)
    case CleanupCall => Cleanup(s)
  }

  lemma ApplyKeepsInv(s: State, c: Call)
    requires Inv(s) && Legal(c)
    ensures Inv(Apply(s, c)) && (WireBounded(s.wire) ==> WireBounded(Apply(s, c).wire))
    ensures !c.SendCall? ==> forall x :: Stream(Apply(s, c), x) == Stream(s, x)
    ensures c.SendCall? ==>
              SendEffect(s, Apply(s, c), c.key, c.packet, Overtakes(s, c.key, |c.packet|, c.now, c.tracked))
  {
    hide Inv, Stream, SendEffect, Overtakes, Send, WireBounded;
    match c
    case SendCall(k, p, now, h, tracked) => SendStep(s, k, p, now, h, tracked);
    case FlushWaitingCall(now) => FlushWaitingStep(s, now);
    case CleanupCall => CleanupStep(s);
  }

  ghost predicate AllLegal(run: seq<Call>) {
    forall i :: 0 <= i < |run| ==> Legal(run[i])
  }

  /** The state after a run from the start of the process. */
  ghost function After(run: seq<Call>): (s: State)
    requires AllLegal(run)
    ensures Inv(s) && WireBounded(s.wire)
  {
    if run == [] then EMPTY
    else
      var s := After(run[..|run| - 1]);
      ApplyKeepsInv(s, run[|run| - 1]);
      Apply(s, run[|run| - 1])
  }

  /** The packets submitted for k, in order. */
  function SubmittedFor(run: seq<Call>, k: Key): seq<Bytes> {
    if run == [] then []
    else
      var c := run[|run| - 1];
      SubmittedFor(run[..|run| - 1], k) + if c.SendCall? && c.key == k then [c.packet] else []
  }

  /** Conservation: for every destination, what was submitted is exactly what has been handed to
      r_sendto(), directly or inside envelopes, and what its payload still holds. */
  lemma {:induction false} PacketsConserved(run: seq<Call>, k: Key)
    requires AllLegal(run)
    ensures multiset(SubmittedFor(run, k)) == multiset(OutFor(After(run).wire, k)) + multiset(QueueOf(After(run), k))
  {
    if run == [] {
    } else {
      var prefix, c := run[..|run| - 1], run[|run| - 1];
      PacketsConserved(prefix, k);
      ApplyKeepsInv(After(prefix), c);
      ConservedBy(After(prefix), After(run), c, k);
    }
  }

  lemma ConservedBy(s: State, s': State, c: Call, k: Key)
    requires Inv(s)
    requires !c.SendCall? ==> Stream(s', k) == Stream(s, k)
    requires c.SendCall? ==>
               SendEffect(s, s', c.key, c.packet, Overtakes(s, c.key, |c.packet|, c.now, c.tracked))
    ensures multiset(OutFor(s'.wire, k)) + multiset(QueueOf(s', k))
         == multiset(OutFor(s.wire, k)) + multiset(QueueOf(s, k))
          + if c.SendCall? && c.key == k then multiset{c.packet} else multiset{}
  {
    hide Inv, OutFor, QueueOf, Overtakes;
    StreamMultiset(s, k);
    StreamMultiset(s', k);
  }

  lemma StreamMultiset(s: State, k: Key)
    ensures multiset(Stream(s, k)) == multiset(OutFor(s.wire, k)) + multiset(QueueOf(s, k))
  {}

  /** No call of the run overtakes packets queued for k. */
  ghost predicate NeverOvertakes(run: seq<Call>, k: Key)
    requires AllLegal(run)
  {
    forall i :: 0 <= i < |run| && run[i].SendCall? && run[i].key == k ==>
      !Overtakes(After(run[..i]), k, |run[i].packet|, run[i].now, run[i].tracked)
  }

  /** Order: a destination whose sends never overtake sees its packets in submission order. */
  lemma {:induction false} OrderKept(run: seq<Call>, k: Key)
    requires AllLegal(run) && NeverOvertakes(run, k)
    ensures Stream(After(run), k) == SubmittedFor(run, k)
  {
    if run == [] {
    } else {
      var prefix, c := run[..|run| - 1], run[|run| - 1];
      assert forall i :: 0 <= i < |prefix| ==> prefix[..i] == run[..i];
      assert run[..|run| - 1] == prefix;
      OrderKept(prefix, k);
      ApplyKeepsInv(After(prefix), c);
      hide Overtakes, Apply, Inv;
    }
  }
}
