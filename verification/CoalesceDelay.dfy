/** How long a payload can wait: the 20 ms are looked at only when something calls. */
module CoalesceDelay {
  import opened Ipx
  import opened Sequences
  import opened Coalesce
  import opened CoalesceProofs
  import opened CoalesceOrder
  import opened CoalesceTiming
  import opened CoalesceOvertaking

  // ----- what the router's passes bound -----

  /** Every payload was started less than 20 ms before t, or later. */
  ghost predicate NoneOlder(s: State, t: nat) {
    forall k :: k in s.table && s.table[k].queue != [] ==> s.table[k].payloadTime + MAX_DELAY > t
  }

  lemma FlushKeepsYoung(s: State, k: Key, t: nat)
    requires NoneOlder(s, t) && k in s.table && s.table[k].queue != []
    ensures NoneOlder(Flush(s, k), t)
  {}

  lemma {:induction false} FlushWaitingKeepsYoung(s: State, now: nat, t: nat)
    requires Inv(s) && NoneOlder(s, t)
    ensures NoneOlder(FlushWaiting(s, now), t)
    decreases |s.pending|
  {
    hide NoneOlder, Flush;
    if s.pending != [] && Overdue(s.table[s.pending[0]], now) {
      FlushStep(s, s.pending[0]);
      FlushKeepsLinked(s, s.pending[0]);
      FlushKeepsYoung(s, s.pending[0], t);
      FlushWaitingKeepsYoung(Flush(s, s.pending[0]), now, t);
    }
  }

  lemma SendKeepsYoung(s: State, k: Key, packet: Bytes, now: nat, header: Bytes, t: nat)
    requires Shaped(s) && NoneOlder(s, t) && t <= now
    ensures NoneOlder(SendTracked(s, k, packet, now, header), t)
  {
    hide Verdict, Registered, Fits, Remove;
  }

  /** Once the overdue payloads of some moment are gone, no call brings one back. */
  lemma ApplyKeepsYoung(s: State, c: Call, t: nat)
    requires Inv(s) && NoneOlder(s, t) && (c.SendCall? ==> t <= c.now)
    ensures NoneOlder(Apply(s, c), t)
  {
    hide NoneOlder, SendTracked, FlushWaiting;
    match c
    case SendCall(k, p, now, h, tracked) =>
      ShapedByInv(s);
      if tracked { SendKeepsYoung(s, k, p, now, h, t); } else { SameTable(s, Apply(s, c), t); }
    case FlushWaitingCall(now) => FlushWaitingKeepsYoung(s, now, t);
    case CleanupCall => NothingQueued(Apply(s, c), t);
  }

  lemma SameTable(s: State, s': State, t: nat)
    requires NoneOlder(s, t) && s'.table == s.table
    ensures NoneOlder(s', t)
  {}

  lemma NothingQueued(s: State, t: nat)
    requires s.table == map[]
    ensures NoneOlder(s, t)
  {}

  /** The router's passes bound the wait: no payload was started 20 ms or more before the last
      coalesce_flush_waiting. */
  lemma {:induction false} YoungSinceFlush(run: seq<Call>, i: nat)
    requires AllLegal(run) && Clocked(run) && i < |run| && run[i].FlushWaitingCall?
    ensures NoneOlder(After(run), run[i].now)
  {
    var prefix, c := run[..|run| - 1], run[|run| - 1];
    if i == |run| - 1 {
      NothingOverdueAfterFlush(prefix, c.now);
    } else {
      YoungSinceFlush(prefix, i);
      ApplyKeepsYoung(After(prefix), c, run[i].now);
    }
  }

  // ----- exactly when a payload is overdue -----

  /** A send to k that has coalescing on, and a packet that is small but does not fit behind the
      header and the packets already queued. */
  ghost predicate SmallWithoutRoom(s: State, k: Key, size: nat, now: nat)
    requires Shaped(s)
  {
    Noted(s, k, now).active && 2 * size < MAX_SIZE && QueueOf(s, k) != [] && IPX_HEADER + TotalLen(QueueOf(s, k)) + size > MAX_SIZE
  }

  /** It is such sends that flush what is queued for room, and no others. */
  lemma RoomIff(s: State, k: Key, size: nat, now: nat)
    requires Shaped(s)
    ensures MakesRoom(Noted(s, k, now), size) <==> SmallWithoutRoom(s, k, size, now)
  {
    hide TotalLen, Verdict, Registered;
    NotedPayload(s, k, now);
  }

  /** A send whose packet is the first of a new payload for k. */
  ghost predicate Starts(s: State, c: Call, k: Key)
    requires Shaped(s)
  {
    && c.SendCall? && c.tracked && c.key == k && Queues(s, k, |c.packet|, c.now)
    && (QueueOf(s, k) == [] || SmallWithoutRoom(s, k, |c.packet|, c.now))
  }

  /** A call that flushes a payload of k whose 20 ms are over at `deadline`. */
  ghost predicate Ends(s: State, c: Call, k: Key, deadline: nat)
    requires Shaped(s)
  {
    match c
    case CleanupCall => true
    case FlushWaitingCall(now) => deadline <= now
    case SendCall(x, p, now, _, tracked) => x == k && tracked && (deadline <= now || SmallWithoutRoom(s, k, |p|, now))
  }

  /** What becomes of k's payload: a new one, none, or the one there was. */
  ghost predicate PayloadAfter(s: State, s': State, c: Call, k: Key)
    requires Shaped(s)
  {
    if Starts(s, c, k) then
      k in s'.table && s'.table[k].queue == [c.packet] && s'.table[k].payloadTime == c.now && s'.table[k].header == c.header
    else if QueueOf(s, k) == [] || Ends(s, c, k, s.table[k].payloadTime + MAX_DELAY) then QueueOf(s', k) == []
    else
      && QueueOf(s', k) != [] && s'.table[k].payloadTime == s.table[k].payloadTime
      && s'.table[k].header == s.table[k].header
  }

  lemma SendPayload(s: State, k: Key, packet: Bytes, now: nat, header: Bytes)
    requires Inv(s)
    ensures Shaped(s) && PayloadAfter(s, SendTracked(s, k, packet, now, header), SendCall(k, packet, now, header, true), k)
  {
    hide Verdict, Registered, Fits, Remove, Used, Inv, Stream, SmallWithoutRoom;
    ShapedByInv(s);
    RoomIff(s, k, |packet|, now);
    RoomStep(s, k, |packet|, now);
    NotedPayload(s, k, now);
    if MakesRoom(Noted(s, k, now), |packet|) { MakesRoomHasPayload(Noted(s, k, now), |packet|); }
  }

  /** A send to another destination leaves k's payload alone. */
  lemma OtherPayload(s: State, x: Key, packet: Bytes, now: nat, header: Bytes, k: Key)
    requires Shaped(s) && x != k
    ensures var s' := SendTracked(s, x, packet, now, header);
            (k in s'.table <==> k in s.table) && (k in s.table ==> s'.table[k] == s.table[k])
  {
    hide Verdict, Registered, Fits, Remove, Used;
  }

  lemma PayloadStep(s: State, c: Call, k: Key)
    requires Inv(s) && (c.FlushWaitingCall? ==> Aged(s, c.now))
    ensures Shaped(s) && PayloadAfter(s, Apply(s, c), c, k)
  {
    hide SendTracked, FlushWaiting, Aged, Noted, Queues;
    ShapedByInv(s);
    match c
    case SendCall(x, p, now, h, tracked) =>
      if tracked {
        if x == k { SendPayload(s, k, p, now, h); } else { OtherPayload(s, x, p, now, h, k); }
      }
    case FlushWaitingCall(now) => FlushWaitingExact(s, now);
    case CleanupCall =>
  }

  /** Send i starts a payload for k, and no later call ends it. */
  ghost predicate Current(run: seq<Call>, i: nat, k: Key)
    requires AllLegal(run) && i < |run|
  {
    && Starts(After(run[..i]), run[i], k)
    && forall j :: i < j < |run| ==> !Ends(After(run[..j]), run[j], k, run[i].now + MAX_DELAY)
  }

  lemma CurrentSnoc(run: seq<Call>, i: nat, k: Key)
    requires AllLegal(run) && i < |run|
    ensures var last := |run| - 1;
            && AllLegal(run[..last])
            && (i == last ==> (Current(run, i, k) <==> Starts(After(run[..last]), run[last], k)))
            && (i < last ==> (Current(run, i, k) <==>
                 Current(run[..last], i, k) && !Ends(After(run[..last]), run[last], k, run[i].now + MAX_DELAY)))
  {
    hide Starts, Ends, After, Legal;
    var last := |run| - 1;
    assert forall j :: 0 <= j < last ==> run[..last][..j] == run[..j] && run[..last][j] == run[j];
  }

  /** The payload k has after a run is the one the current send started: its age counts from that
      send, and it goes behind that send's header. */
  lemma {:induction false} CurrentPayload(run: seq<Call>, k: Key)
    requires AllLegal(run) && Clocked(run)
    ensures QueueOf(After(run), k) != [] <==> exists i :: 0 <= i < |run| && Current(run, i, k)
    ensures forall i :: 0 <= i < |run| && Current(run, i, k) ==>
              && k in After(run).table && run[i].SendCall?
              && After(run).table[k].payloadTime == run[i].now && After(run).table[k].header == run[i].header
  {
    hide Current, Apply, Inv, Queues, SmallWithoutRoom, Noted, Legal, WireBounded;
    if run != [] {
      var last := |run| - 1;
      var prefix, c := run[..last], run[last];
      assert AllLegal(prefix);
      var s := After(prefix);
      CurrentPayload(prefix, k);
      if c.FlushWaitingCall? { AlwaysAged(prefix, c.now); }
      PayloadStep(s, c, k);
      forall i | 0 <= i < |run| ensures Current(run, i, k) <==>
        if i == last then Starts(s, c, k) else Current(prefix, i, k) && !Ends(s, c, k, run[i].now + MAX_DELAY)
      {
        CurrentSnoc(run, i, k);
      }
      if i :| 0 <= i < last && Current(prefix, i, k) { assert prefix[i] == run[i]; }
    }
  }

  /** k's payload has waited 20 ms or more at `now` if and only if some send that long ago started
      it, and since then there was no coalesce_cleanup, no coalesce_flush_waiting and no tracked
      send to k once the 20 ms were over, and no small packet for k that did not fit. */
  lemma OverdueIff(run: seq<Call>, k: Key, now: nat)
    requires AllLegal(run) && Clocked(run)
    ensures k in After(run).table && Overdue(After(run).table[k], now)
       <==> exists i :: 0 <= i < |run| && Current(run, i, k) && run[i].SendCall? && run[i].now + MAX_DELAY <= now
  {
    CurrentPayload(run, k);
    hide Current;
  }

  /** It happens: the payload that the last of 512 quick sends starts, passed over 19.999 ms later,
      is still waiting a second after that. */
  lemma WaitsForTheNextPass(run: seq<Call>, k: Key, packets: seq<Bytes>, header: Bytes, start: nat)
    requires |packets| == TRACK_COUNT && start > START_THRESH && EnvelopeHeader(k, header)
    requires forall i :: 0 <= i < |packets| ==> |packets[i]| == 600
    requires run == Quick(k, packets, header, start) + [FlushWaitingCall(start + 511 + 19999)]
    ensures AllLegal(run) && Clocked(run)
    ensures k in After(run).table && Overdue(After(run).table[k], start + 511 + 1019998)
  {
    hide EnvelopeHeader, Inv, WireBounded, Apply, OutFor, QueueOf, Quick, Aged;
    var quick := Quick(k, packets, header, start);
    QuickSendsQueue(k, packets, header, start);
    QuickClocked(k, packets, header, start);
    OneMoreSend(quick, FlushWaitingCall(start + 511 + 19999));
    InvAfter(quick);
    AlwaysAged(quick, start + 511 + 19999);
    PassedOver(After(quick), k, start + 511 + 19999);
  }

  lemma PassedOver(s: State, k: Key, now: nat)
    requires Inv(s) && Aged(s, now) && k in s.table && !Overdue(s.table[k], now)
    ensures k in Apply(s, FlushWaitingCall(now)).table && Apply(s, FlushWaitingCall(now)).table[k] == s.table[k]
  {
    FlushWaitingExact(s, now);
  }
}
