/** In which order a destination's packets leave. */
module CoalesceOrder {
  import opened Ipx
  import opened Sequences
  import opened Coalesce
  import opened CoalesceProofs

  // ----- order is kept exactly when nothing overtakes -----

  lemma OutPrefix(wire: seq<Datagram>, more: seq<Datagram>, k: Key)
    ensures OutFor(wire, k) <= OutFor(wire + more, k)
    decreases |more|
  {
    if more == [] {
      assert wire + more == wire;
    } else {
      OutPrefix(wire, more[..|more| - 1], k);
      assert wire + more == wire + more[..|more| - 1] + [more[|more| - 1]];
      OutSnoc(wire + more[..|more| - 1], more[|more| - 1], k);
    }
  }

  lemma {:induction false} FlushLoopsGrowWire(s: State, now: nat)
    requires Inv(s)
    ensures s.wire <= FlushWaiting(s, now).wire && s.wire <= FlushAll(s).wire
    decreases |s.pending|
  {
    if s.pending != [] {
      FlushStep(s, s.pending[0]);
      FlushKeepsLinked(s, s.pending[0]);
      FlushLoopsGrowWire(Flush(s, s.pending[0]), now);
    }
  }

  /** Nothing handed to r_sendto() is ever taken back. */
  lemma ApplyGrowsWire(s: State, c: Call)
    requires Inv(s)
    ensures s.wire <= Apply(s, c).wire
  {
    match c
    case SendCall(k, p, now, h, tracked) =>
    case FlushWaitingCall(now) => FlushLoopsGrowWire(s, now);
    case CleanupCall => FlushLoopsGrowWire(s, 0);
  }

  lemma LastCall(run: seq<Call>, k: Key)
    requires AllLegal(run) && run != []
    ensures var prefix := run[..|run| - 1];
            && AllLegal(prefix) && After(run) == Apply(After(prefix), run[|run| - 1])
            && SubmittedFor(prefix, k) <= SubmittedFor(run, k)
  {
    hide Apply, Inv, WireBounded;
  }

  lemma {:induction false} RunGrowsOut(run: seq<Call>, i: nat, k: Key)
    requires AllLegal(run) && i <= |run|
    ensures AllLegal(run[..i])
    ensures OutFor(After(run[..i]).wire, k) <= OutFor(After(run).wire, k)
    ensures SubmittedFor(run[..i], k) <= SubmittedFor(run, k)
  {
    hide Inv, Apply, WireBounded, OutFor, After, SubmittedFor, Legal;
    if i == |run| {
      assert run[..i] == run;
    } else {
      var prefix := run[..|run| - 1];
      assert prefix[..i] == run[..i];
      LastCall(run, k);
      RunGrowsOut(prefix, i, k);
      var s, s' := After(prefix), After(run);
      ApplyGrowsWire(s, run[|run| - 1]);
      assert s'.wire == s.wire + s'.wire[|s.wire|..];
      OutPrefix(s.wire, s'.wire[|s.wire|..], k);
    }
  }

  ghost predicate AllDifferent(packets: seq<Bytes>) {
    forall i, j :: 0 <= i < j < |packets| ==> packets[i] != packets[j]
  }

  /** An overtaking send puts its packet, for good, where an older one was due. */
  lemma OvertakingShows(run: seq<Call>, k: Key, i: nat)
    requires AllLegal(run) && i < |run| && run[i].SendCall? && run[i].key == k
    requires NeverOvertakes(run[..i], k)
    requires Overtakes(After(run[..i]), k, |run[i].packet|, run[i].now, run[i].tracked)
    requires AllDifferent(SubmittedFor(run, k))
    ensures Stream(After(run), k) != SubmittedFor(run, k)
  {
    hide Apply, Inv, Overtakes, WireBounded, OutFor, QueueOf, NeverOvertakes, SubmittedFor, Stream, SendEffect;
    OneMoreCall(run, k, i);
    var before, upto := run[..i], run[..i + 1];
    var s, s', c := After(before), After(upto), run[i];
    var due, at := SubmittedFor(before, k), |OutFor(s.wire, k)|;
    ShapedByInv(s);
    OrderKept(before, k);
    ApplyKeepsInv(s, c);
    OvertakenFront(s, s', k, c.packet, Overtakes(s, k, |c.packet|, c.now, c.tracked), due);
    FirstPending(s, k, c);
    RunGrowsOut(run, i + 1, k);
    LeftFirst(After(run), k, at, c.packet);
    assert SubmittedFor(run, k)[|due|] == c.packet;
    assert SubmittedFor(run, k)[at] != SubmittedFor(run, k)[|due|];
  }

  lemma LeftFirst(s: State, k: Key, at: nat, p: Bytes)
    requires at < |OutFor(s.wire, k)| && OutFor(s.wire, k)[at] == p
    ensures at < |Stream(s, k)| && Stream(s, k)[at] == p
  {}

  lemma FirstPending(s: State, k: Key, c: Call)
    requires Shaped(s) && c.SendCall? && Overtakes(s, k, |c.packet|, c.now, c.tracked)
    ensures QueueOf(s, k) != []
  {}

  /** Where an overtaking packet goes, and what was due there. */
  lemma OvertakenFront(s: State, s': State, k: Key, p: Bytes, overtakes: bool, due: seq<Bytes>)
    requires overtakes && SendEffect(s, s', k, p, overtakes) && due == Stream(s, k)
    ensures OutFor(s'.wire, k) == OutFor(s.wire, k) + [p]
    ensures due == OutFor(s.wire, k) + QueueOf(s, k)
  {}

  lemma OneMoreCall(run: seq<Call>, k: Key, i: nat)
    requires AllLegal(run) && i < |run| && run[i].SendCall? && run[i].key == k
    ensures AllLegal(run[..i]) && AllLegal(run[..i + 1])
    ensures After(run[..i + 1]) == Apply(After(run[..i]), run[i])
    ensures SubmittedFor(run[..i + 1], k) == SubmittedFor(run[..i], k) + [run[i].packet]
  {
    hide Apply, Inv, WireBounded;
    assert run[..i + 1][..i] == run[..i] && run[..i + 1][i] == run[i];
  }

  /** When all packets submitted for k differ, they leave in submission order if and only if no
      call overtakes. */
  lemma OrderKeptIff(run: seq<Call>, k: Key)
    requires AllLegal(run) && AllDifferent(SubmittedFor(run, k))
    ensures Stream(After(run), k) == SubmittedFor(run, k) <==> NeverOvertakes(run, k)
  {
    if NeverOvertakes(run, k) {
      OrderKept(run, k);
    } else {
      assert run[..|run|] == run;
      var i := FirstOvertaking(run, k, |run|);
      OvertakingShows(run, k, i);
    }
  }

  lemma {:induction false} FirstOvertaking(run: seq<Call>, k: Key, n: nat) returns (i: nat)
    requires AllLegal(run) && n <= |run| && !NeverOvertakes(run[..n], k)
    ensures i < n && run[i].SendCall? && run[i].key == k && NeverOvertakes(run[..i], k)
    ensures Overtakes(After(run[..i]), k, |run[i].packet|, run[i].now, run[i].tracked)
  {
    assert forall j :: 0 <= j < n ==> run[..n][..j] == run[..j];
    var j :| 0 <= j < n && run[j].SendCall? && run[j].key == k
             && Overtakes(After(run[..n][..j]), k, |run[j].packet|, run[j].now, run[j].tracked);
    if NeverOvertakes(run[..j], k) {
      i := j;
    } else {
      i := FirstOvertaking(run, k, j);
    }
  }

  /** Small packets overtake only when coalescing goes off with a payload pending. */
  lemma SmallPacketsOvertakeOnlyWhenOff(s: State, k: Key, size: nat, now: nat)
    requires Shaped(s) && size < MAX_SIZE / 2 && Overtakes(s, k, size, now, true)
    ensures k in s.table && s.table[k].queue != [] && !Noted(s, k, now).active
  {}

  // ----- packets that are queued keep their order among themselves -----

  /** The packets for k that left in envelopes. */
  function EnvelopedFor(wire: seq<Datagram>, k: Key): seq<Bytes> {
    if wire == [] then []
    else
      var d := wire[|wire| - 1];
      EnvelopedFor(wire[..|wire| - 1], k) + if d.key == k && d.Envelope? then d.packets else []
  }

  lemma EnvelopedSnoc(wire: seq<Datagram>, d: Datagram, k: Key)
    ensures EnvelopedFor(wire + [d], k) == EnvelopedFor(wire, k) + if d.key == k && d.Envelope? then d.packets else []
  {}

  /** Left in envelopes, then still queued. */
  function QueuedStream(s: State, k: Key): seq<Bytes> {
    EnvelopedFor(s.wire, k) + QueueOf(s, k)
  }

  lemma FlushKeepsQueued(s: State, k: Key)
    requires Inv(s) && k in s.table && s.table[k].queue != []
    ensures Inv(Flush(s, k)) && forall x :: QueuedStream(Flush(s, k), x) == QueuedStream(s, x)
  {
    FlushStep(s, k);
    hide Inv, EnvelopedFor, Remove, Stream;
    forall x ensures QueuedStream(Flush(s, k), x) == QueuedStream(s, x) {
      EnvelopedSnoc(s.wire, Envelope(k, s.table[k].header, s.table[k].queue), x);
    }
  }

  lemma OverdueKeepsQueued(s: State, k: Key, now: nat)
    requires Inv(s) && k in s.table
    ensures Inv(FlushIfOverdue(s, k, now)) && forall x :: QueuedStream(FlushIfOverdue(s, k, now), x) == QueuedStream(s, x)
  {
    if Overdue(s.table[k], now) { FlushKeepsQueued(s, k); }
  }

  lemma RoomKeepsQueued(s: State, k: Key, size: nat, now: nat)
    requires Inv(s)
    ensures var s2 := RoomMade(s.(table := s.table[k := Noted(s, k, now)]), k, size);
            Inv(s2) && k in s2.table && forall x :: QueuedStream(s2, x) == QueuedStream(s, x)
  {
    NoteStep(s, k, now);
    var s1 := s.(table := s.table[k := Noted(s, k, now)]);
    assert forall x :: QueuedStream(s1, x) == QueuedStream(s, x);
    hide Inv, Noted, QueuedStream, Verdict;
    if MakesRoom(s1.table[k], size) {
      MakesRoomHasPayload(s1.table[k], size);
      FlushKeepsQueued(s1, k);
    }
  }

  lemma SendKeepsQueued(s: State, k: Key, packet: Bytes, now: nat, header: Bytes)
    requires Inv(s) && |packet| > 0 && EnvelopeHeader(k, header)
    ensures forall x :: QueuedStream(SendTracked(s, k, packet, now, header), x)
              == QueuedStream(s, x) + if x == k && Queues(s, k, |packet|, now) then [packet] else []
  {
    hide Inv, Noted, QueuedStream, Verdict, Stream, RoomMade, Queues, Append, FlushIfOverdue, Fits, EnvelopeHeader;
    ShapedByInv(s);
    RoomStep(s, k, |packet|, now);
    RoomKeepsQueued(s, k, |packet|, now);
    var s2 := RoomMade(s.(table := s.table[k := Noted(s, k, now)]), k, |packet|);
    if Queues(s, k, |packet|, now) {
      AppendStep(s2, k, packet, now, header);
      AppendQueues(s2, k, packet, now, header);
      OverdueKeepsQueued(Append(s2, k, packet, now, header), k, now);
    } else {
      OverdueKeepsQueued(s2, k, now);
      DirectKeepsQueued(FlushIfOverdue(s2, k, now), k, packet);
    }
  }

  lemma DirectKeepsQueued(s: State, k: Key, packet: Bytes)
    ensures forall x :: QueuedStream(s.(wire := s.wire + [Direct(k, packet)]), x) == QueuedStream(s, x)
  {}

  lemma AppendQueues(s: State, k: Key, packet: Bytes, now: nat, header: Bytes)
    requires k in s.table
    ensures k in Append(s, k, packet, now, header).table
    ensures forall x :: QueuedStream(Append(s, k, packet, now, header), x)
              == QueuedStream(s, x) + if x == k then [packet] else []
  {}

  lemma {:induction false} FlushLoopsKeepQueued(s: State, now: nat)
    requires Inv(s)
    ensures forall x :: QueuedStream(FlushWaiting(s, now), x) == QueuedStream(s, x)
    ensures forall x :: QueuedStream(FlushAll(s), x) == QueuedStream(s, x)
    decreases |s.pending|
  {
    if s.pending != [] {
      FlushKeepsQueued(s, s.pending[0]);
      FlushKeepsLinked(s, s.pending[0]);
      FlushLoopsKeepQueued(Flush(s, s.pending[0]), now);
    }
  }

  /** The packets of k that the calls of a run queued, in order. */
  ghost function QueuedFor(run: seq<Call>, k: Key): seq<Bytes>
    requires AllLegal(run)
  {
    if run == [] then []
    else
      var s, c := After(run[..|run| - 1]), run[|run| - 1];
      QueuedFor(run[..|run| - 1], k)
      + if c.SendCall? && c.key == k && c.tracked && Queues(s, k, |c.packet|, c.now) then [c.packet] else []
  }

  /** In every run, overtaking or not, queued packets leave in the order they were queued. */
  lemma {:induction false} QueuedOrderKept(run: seq<Call>, k: Key)
    requires AllLegal(run)
    ensures QueuedStream(After(run), k) == QueuedFor(run, k)
  {
    if run != [] {
      var s, c := After(run[..|run| - 1]), run[|run| - 1];
      QueuedOrderKept(run[..|run| - 1], k);
      CallKeepsQueued(s, c, k);
    }
  }

  lemma CallKeepsQueued(s: State, c: Call, k: Key)
    requires Inv(s) && Legal(c)
    ensures QueuedStream(Apply(s, c), k) == QueuedStream(s, k)
              + if c.SendCall? && c.key == k && c.tracked && Queues(s, k, |c.packet|, c.now) then [c.packet] else []
  {
    hide SendTracked, Queues, FlushWaiting, FlushAll, Bounded, Linked;
    match c
    case SendCall(x, p, now, h, tracked) =>
      if tracked {
        SendKeepsQueued(s, x, p, now, h);
      } else {
        EnvelopedSnoc(s.wire, Direct(x, p), k);
      }
    case FlushWaitingCall(now) => FlushLoopsKeepQueued(s, now);
    case CleanupCall =>
      FlushLoopsKeepQueued(s, 0);
      FlushAllStep(s);
      assert QueuedStream(FlushAll(s), k) == QueuedStream(s, k);
      assert QueueOf(FlushAll(s), k) == [];
  }
}
