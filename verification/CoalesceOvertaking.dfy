/** Runs in which packets overtake: a large one after 512 quick sends, and one sent as coalescing
    goes off. */
module CoalesceOvertaking {
  import opened Ipx
  import opened Sequences
  import opened Coalesce
  import opened CoalesceProofs
  import opened CoalesceOrder
  import opened CoalesceHistory
  import opened CoalesceTiming

  lemma OneMoreSend(run: seq<Call>, c: Call)
    requires AllLegal(run) && Legal(c)
    ensures AllLegal(run + [c]) && After(run + [c]) == Apply(After(run), c)
  {
    hide Apply, Inv, WireBounded, Legal;
    assert (run + [c])[..|run|] == run;
  }

  // ----- after 512 quick sends -----

  /** One packet after the other, a microsecond apart. */
  function Quick(k: Key, packets: seq<Bytes>, header: Bytes, start: nat): (run: seq<Call>)
    ensures |run| == |packets|
  {
    if packets == [] then []
    else
      var last := |packets| - 1;
      Quick(k, packets[..last], header, start) + [SendCall(k, packets[last], start + last, header, true)]
  }

  /** Their times. */
  function Times(start: nat, n: nat): (times: seq<nat>)
    ensures |times| == n && forall i :: 0 <= i < n ==> times[i] == start + i
  {
    seq(n, i => start + i)
  }

  /** The last of the quick sends, and what is before it. */
  lemma QuickSnoc(k: Key, packets: seq<Bytes>, header: Bytes, start: nat)
    requires packets != []
    ensures var last := |packets| - 1;
            Quick(k, packets, header, start)
            == Quick(k, packets[..last], header, start) + [SendCall(k, packets[last], start + last, header, true)]
  {}

  lemma LegalSend(k: Key, packet: Bytes, now: nat, header: Bytes)
    requires |packet| == 600 && EnvelopeHeader(k, header)
    ensures Legal(SendCall(k, packet, now, header, true))
  {}

  lemma TimesForSnoc(run: seq<Call>, k: Key, packet: Bytes, now: nat, header: Bytes)
    ensures TimesFor(run + [SendCall(k, packet, now, header, true)], k) == TimesFor(run, k) + [now]
  {
    assert (run + [SendCall(k, packet, now, header, true)])[..|run|] == run;
  }

  lemma {:induction false} QuickClocked(k: Key, packets: seq<Bytes>, header: Bytes, start: nat)
    ensures var run := Quick(k, packets, header, start);
            && Clocked(run) && forall i :: 0 <= i < |run| ==> run[i].SendCall? && run[i].now == start + i
  {
    if packets != [] { QuickClocked(k, packets[..|packets| - 1], header, start); }
  }

  /** The first 511 of them each leave at once. */
  lemma {:induction false} QuickSendsLeave(k: Key, packets: seq<Bytes>, header: Bytes, start: nat)
    requires |packets| < TRACK_COUNT && start > START_THRESH && EnvelopeHeader(k, header)
    requires forall i :: 0 <= i < |packets| ==> |packets[i]| == 600
    ensures var run := Quick(k, packets, header, start);
            && AllLegal(run) && TimesFor(run, k) == Times(start, |packets|)
            && QueueOf(After(run), k) == [] && OutFor(After(run).wire, k) == packets
  {
    hide EnvelopeHeader, Inv, WireBounded, Apply, After, Tracks, QueueOf, OutFor, Legal, TimesFor, Times, Quick;
    if packets == [] {
      NothingSent(k, packets, header, start);
    } else {
      var last := |packets| - 1;
      var before := Quick(k, packets[..last], header, start);
      QuickSendsLeave(k, packets[..last], header, start);
      QuickSnoc(k, packets, header, start);
      TimesForSnoc(before, k, packets[last], start + last, header);
      LegalSend(k, packets[last], start + last, header);
      OneMoreSend(before, SendCall(k, packets[last], start + last, header, true));
      HistoryTracksRun(before, k);
      InvAfter(before);
      QuickSendLeaves(After(before), k, packets[last], header, Times(start, last), start);
    }
  }

  lemma InvAfter(run: seq<Call>)
    requires AllLegal(run)
    ensures Inv(After(run))
  {}

  lemma NothingSent(k: Key, packets: seq<Bytes>, header: Bytes, start: nat)
    requires packets == []
    ensures var run := Quick(k, packets, header, start);
            && AllLegal(run) && TimesFor(run, k) == Times(start, 0)
            && QueueOf(After(run), k) == [] && OutFor(After(run).wire, k) == packets
  {}

  lemma QuickSendLeaves(s: State, k: Key, packet: Bytes, header: Bytes, times: seq<nat>, start: nat)
    requires Inv(s) && Tracks(s, k, times) && QueueOf(s, k) == [] && |packet| == 600 && EnvelopeHeader(k, header)
    requires |times| < TRACK_COUNT - 1 && start > START_THRESH && times == Times(start, |times|)
    ensures var s' := Apply(s, SendCall(k, packet, start + |times|, header, true));
            QueueOf(s', k) == [] && OutFor(s'.wire, k) == OutFor(s.wire, k) + [packet]
  {
    hide EnvelopeHeader, Window, Linked, Bounded;
    var now := start + |times|;
    NotedTracks(s, k, times, now);
    assert !On(times + [now]) by {
      var more := times + [now];
      forall i | 0 <= i < |more| ensures !Fast(more, i) {}
    }
    OutSnoc(s.wire, Direct(k, packet), k);
    hide Noted, On;
    assert !Queues(s, k, 600, now);
  }

  /** The 512th is queued. */
  lemma QuickSendsQueue(k: Key, packets: seq<Bytes>, header: Bytes, start: nat)
    requires |packets| == TRACK_COUNT && start > START_THRESH && EnvelopeHeader(k, header)
    requires forall i :: 0 <= i < |packets| ==> |packets[i]| == 600
    ensures var run, last := Quick(k, packets, header, start), TRACK_COUNT - 1;
            && AllLegal(run) && TimesFor(run, k) == Times(start, TRACK_COUNT)
            && k in After(run).table && After(run).table[k].queue == QueueOf(After(run), k) == [packets[last]]
            && After(run).table[k].payloadTime == start + last
            && OutFor(After(run).wire, k) == packets[..last]
  {
    hide EnvelopeHeader, Inv, WireBounded, Apply, OutFor, QueueOf, Quick, TimesFor, Times, Tracks;
    var last := TRACK_COUNT - 1;
    var before := Quick(k, packets[..last], header, start);
    QuickSendsLeave(k, packets[..last], header, start);
    HistoryTracksRun(before, k);
    QuickSnoc(k, packets, header, start);
    TimesForSnoc(before, k, packets[last], start + last, header);
    LegalSend(k, packets[last], start + last, header);
    OneMoreSend(before, SendCall(k, packets[last], start + last, header, true));
    InvAfter(before);
    QuickSendQueued(After(before), k, packets[last], header, Times(start, last), start);
  }

  /** A large packet right after 512 quick sends overtakes the last of them. */
  lemma OvertakesAfterQuickSends(run: seq<Call>, k: Key, packets: seq<Bytes>, large: Bytes, header: Bytes, start: nat)
    requires |packets| == TRACK_COUNT && start > START_THRESH && EnvelopeHeader(k, header)
    requires (forall i :: 0 <= i < |packets| ==> |packets[i]| == 600) && |large| == 1000
    requires run == Quick(k, packets, header, start) + [SendCall(k, large, start + TRACK_COUNT, header, true)]
    ensures AllLegal(run) && Stream(After(run), k) == packets[..TRACK_COUNT - 1] + [large] + [packets[TRACK_COUNT - 1]]
  {
    hide EnvelopeHeader, Inv, WireBounded, Apply, OutFor, QueueOf, SendEffect, Overtakes, Quick, TimesFor, Times;
    var full := Quick(k, packets, header, start);
    QuickSendsQueue(k, packets, header, start);
    OneMoreSend(full, SendCall(k, large, start + TRACK_COUNT, header, true));
    InvAfter(full);
    ShapedByInv(After(full));
    LargeOvertakesOne(After(full), k, packets[TRACK_COUNT - 1], large, start + TRACK_COUNT);
    ApplyKeepsInv(After(full), SendCall(k, large, start + TRACK_COUNT, header, true));
    OvertakenStream(After(full), After(run), k, large);
  }

  lemma QuickSendQueued(s: State, k: Key, packet: Bytes, header: Bytes, times: seq<nat>, start: nat)
    requires Inv(s) && Tracks(s, k, times) && QueueOf(s, k) == [] && |packet| == 600 && EnvelopeHeader(k, header)
    requires |times| == TRACK_COUNT - 1 && times == Times(start, |times|)
    ensures var s' := Apply(s, SendCall(k, packet, start + |times|, header, true));
            && k in s'.table && s'.table[k].queue == [packet] && s'.table[k].payloadTime == start + |times|
            && s'.wire == s.wire && QueueOf(s', k) == [packet]
  {
    hide EnvelopeHeader, Window, Linked, Bounded;
    var now := start + |times|;
    NotedTracks(s, k, times, now);
    NotedPayload(s, k, now);
    assert On(times + [now]) by {
      var more := times + [now];
      assert Fast(more, |times|) && Sustained(more, |times|);
    }
    hide Noted, On;
    assert Queues(s, k, 600, now);
  }

  lemma LargeOvertakesOne(s: State, k: Key, small: Bytes, large: Bytes, now: nat)
    requires Shaped(s) && k in s.table && s.table[k].queue == [small] && now < s.table[k].payloadTime + MAX_DELAY
    requires |small| == 600 && |large| == 1000
    ensures Overtakes(s, k, |large|, now, true)
  {
    TotalLenSnoc([], small);
    assert [] + [small] == [small];
  }

  lemma OvertakenStream(s: State, s': State, k: Key, large: Bytes)
    requires SendEffect(s, s', k, large, true)
    ensures Stream(s', k) == OutFor(s.wire, k) + [large] + QueueOf(s, k)
  {}

  // ----- as coalescing goes off -----

  /** Ten seconds after 512 quick sends a destination stops coalescing; a packet sent just then
      overtakes the one queued 11 microseconds before. */
  lemma OvertakesAsCoalescingEnds(run: seq<Call>, k: Key, packets: seq<Bytes>, b: Bytes, c: Bytes, header: Bytes, start: nat)
    requires |packets| == TRACK_COUNT && start > START_THRESH && EnvelopeHeader(k, header)
    requires (forall i :: 0 <= i < |packets| ==> |packets[i]| == 600) && |b| == |c| == 600
    requires run == Quick(k, packets, header, start)
                    + [FlushWaitingCall(start + 30000)]
                    + [SendCall(k, b, start + 10000001, header, true)]
                    + [SendCall(k, c, start + 10000013, header, true)]
    ensures AllLegal(run) && Stream(After(run), k) == packets + [c] + [b]
  {
    hide EnvelopeHeader, Inv, WireBounded, Apply, After, OutFor, QueueOf, SendEffect, Overtakes, Stream;
    hide Quick, TimesFor, Times, Tracks;
    var r0 := Quick(k, packets, header, start);
    var r1 := r0 + [FlushWaitingCall(start + 30000)];
    var r2 := r1 + [SendCall(k, b, start + 10000001, header, true)];
    var last := TRACK_COUNT - 1;
    QuickSendsQueue(k, packets, header, start);
    OneMoreSend(r0, FlushWaitingCall(start + 30000));
    InvAfter(r0);
    QuickClocked(k, packets, header, start);
    AlwaysAged(r0, start + 30000);
    FlushedOut(After(r0), k, packets[last], start + 30000, packets[..last]);
    TimesForFlush(r0, k, start + 30000);
    HistoryTracksRun(r1, k);
    LegalSend(k, b, start + 10000001, header);
    OneMoreSend(r1, SendCall(k, b, start + 10000001, header, true));
    InvAfter(r1);
    QueuedAtTheEnd(After(r1), k, b, header, Times(start, TRACK_COUNT), start);
    TimesForSnoc(r1, k, b, start + 10000001, header);
    HistoryTracksRun(r2, k);
    LegalSend(k, c, start + 10000013, header);
    OneMoreSend(r2, SendCall(k, c, start + 10000013, header, true));
    InvAfter(r2);
    ShapedByInv(After(r2));
    GoesOff(After(r2), k, c, Times(start, TRACK_COUNT) + [start + 10000001], start);
    ApplyKeepsInv(After(r2), SendCall(k, c, start + 10000013, header, true));
    OvertakenStream(After(r2), After(run), k, c);
  }

  lemma TimesForFlush(run: seq<Call>, k: Key, now: nat)
    ensures TimesFor(run + [FlushWaitingCall(now)], k) == TimesFor(run, k)
  {
    assert (run + [FlushWaitingCall(now)])[..|run|] == run;
  }

  /** A flush of what waits empties an overdue payload, wherever it is in the pending list. */
  lemma FlushedOut(s: State, k: Key, packet: Bytes, now: nat, out: seq<Bytes>)
    requires Inv(s) && k in s.table && s.table[k].queue == [packet] && Aged(s, now) && Overdue(s.table[k], now)
    requires OutFor(s.wire, k) == out
    ensures var s' := Apply(s, FlushWaitingCall(now));
            k in s'.table && QueueOf(s', k) == [] && OutFor(s'.wire, k) == out + [packet]
  {
    hide Linked, WireBounded, OutFor, Aged, FlushWaiting, EnvelopeHeader;
    FlushWaitingExact(s, now);
    FlushWaitingStep(s, now);
    assert Stream(FlushWaiting(s, now), k) == Stream(s, k);
  }

  /** The send ten seconds later is sustained, and queued. */
  lemma QueuedAtTheEnd(s: State, k: Key, packet: Bytes, header: Bytes, times: seq<nat>, start: nat)
    requires Inv(s) && Tracks(s, k, times) && QueueOf(s, k) == [] && |packet| == 600 && EnvelopeHeader(k, header)
    requires times == Times(start, TRACK_COUNT)
    ensures var s' := Apply(s, SendCall(k, packet, start + 10000001, header, true));
            && k in s'.table && s'.table[k].queue == QueueOf(s', k) == [packet]
            && s'.table[k].payloadTime == start + 10000001 && s'.wire == s.wire
  {
    hide EnvelopeHeader, Window, Linked, Bounded;
    var now := start + 10000001;
    NotedTracks(s, k, times, now);
    NotedPayload(s, k, now);
    assert On(times + [now]) by {
      var more, i := times + [now], TRACK_COUNT - 1;
      assert Fast(more, i) && Sustained(more, i) && Sustained(more, i + 1);
    }
    hide Noted, On;
    assert Queues(s, k, 600, now);
  }

  /** The send after that is not sustained any more, while a payload is pending. */
  lemma GoesOff(s: State, k: Key, c: Bytes, times: seq<nat>, start: nat)
    requires Shaped(s) && Tracks(s, k, times) && |c| == 600
    requires times == Times(start, TRACK_COUNT) + [start + 10000001]
    requires k in s.table && s.table[k].queue != [] && s.table[k].payloadTime == start + 10000001
    ensures Overtakes(s, k, |c|, start + 10000013, true)
  {
    var now := start + 10000013;
    NotedTracks(s, k, times, now);
    assert !On(times + [now]) by {
      var more := times + [now];
      assert !Sustained(more, |times|);
    }
    hide On;
  }
}
