/** From coalesce_send() on one machine to deliver_packet() on the other. */
module CoalesceEndToEnd {
  import opened Ipx
  import opened Coalesce
  import opened CoalesceProofs
  import opened Envelopes
  import opened EnvelopeWalks

  /** What ipx_send_packet() submits for an application: a well-formed packet whose source socket
      is not zero, because bound sockets never have number zero. */
  ghost predicate ApplicationPacket(p: Bytes) {
    WellFormedPacket(p) && (p[28] != 0 || p[29] != 0)
  }

  ghost predicate FromApplications(run: seq<Call>) {
    forall i :: 0 <= i < |run| && run[i].SendCall? ==> ApplicationPacket(run[i].packet)
  }

  /** Nothing but submitted packets is ever on the wire. */
  lemma WireHoldsSubmitted(run: seq<Call>, i: nat, p: Bytes)
    requires AllLegal(run) && FromApplications(run) && i < |After(run).wire| && p in PacketsOf(After(run).wire[i])
    ensures ApplicationPacket(p)
  {
    var wire := After(run).wire;
    var k := wire[i].key;
    PacketLeft(wire, i, p);
    PacketsConserved(run, k);
    assert p in multiset(OutFor(wire, k));
    assert p in multiset(SubmittedFor(run, k));
    SubmittedByApplication(run, k, p);
  }

  lemma {:induction false} PacketLeft(wire: seq<Datagram>, i: nat, p: Bytes)
    requires i < |wire| && p in PacketsOf(wire[i])
    ensures p in OutFor(wire, wire[i].key)
  {
    if i < |wire| - 1 { PacketLeft(wire[..|wire| - 1], i, p); }
  }

  lemma {:induction false} SubmittedByApplication(run: seq<Call>, k: Key, p: Bytes)
    requires FromApplications(run) && p in SubmittedFor(run, k)
    ensures ApplicationPacket(p)
  {
    var prefix := run[..|run| - 1];
    if p in SubmittedFor(prefix, k) {
      assert forall i :: 0 <= i < |prefix| ==> prefix[i] == run[i];
      SubmittedByApplication(prefix, k, p);
    }
  }

  predicate Sendable(d: Datagram) {
    d.Envelope? ==> EnvelopeHeader(d.key, d.header) && IPX_HEADER + TotalLen(d.packets) <= MAX_SIZE
  }

  /** The peer that gets one datagram delivers exactly the packets in it, in order. */
  lemma DatagramDelivered(d: Datagram)
    requires forall i :: 0 <= i < |PacketsOf(d)| ==> ApplicationPacket(PacketsOf(d)[i])
    requires Sendable(d)
    ensures forall i :: 0 <= i < |PacketsOf(d)| ==> |PacketsOf(d)[i]| >= IPX_HEADER
    ensures Receive(DatagramBytes(d)) == Delivered(DeliveriesOf(PacketsOf(d)))
  {
    match d
    case Direct(_, p) =>
      assert PacketsOf(d)[0] == p;
    case Envelope(_, h, ps) =>
      var bytes := DatagramBytes(d);
      ConcatLength(ps);
      assert forall i :: 0 <= i < |ps| ==> WellFormedPacket(ps[i]) by {
        forall i | 0 <= i < |ps| ensures WellFormedPacket(ps[i]) { assert ApplicationPacket(PacketsOf(d)[i]); }
      }
      assert bytes[IPX_HEADER..][0..] == Concat(ps);
      ConcatDelivered(bytes[IPX_HEADER..], 0, ps);
  }

  /** What the peer delivers for k from a sequence of datagrams, one after the other. */
  ghost function DeliveredFor(wire: seq<Datagram>, k: Key): seq<Delivery>
    requires forall i :: 0 <= i < |wire| ==> Sendable(wire[i])
  {
    if wire == [] then []
    else
      assert Sendable(wire[|wire| - 1]);
      var d := wire[|wire| - 1];
      DeliveredFor(wire[..|wire| - 1], k)
      + if d.key == k && Receive(DatagramBytes(d)).Delivered? then Receive(DatagramBytes(d)).packets else []
  }

  lemma {:induction false} DeliveredIsOut(wire: seq<Datagram>, k: Key)
    requires WireBounded(wire)
    requires forall i, p :: 0 <= i < |wire| && p in PacketsOf(wire[i]) ==> ApplicationPacket(p)
    ensures forall i :: 0 <= i < |OutFor(wire, k)| ==> |OutFor(wire, k)[i]| >= IPX_HEADER
    ensures forall i :: 0 <= i < |wire| ==> Sendable(wire[i])
    ensures DeliveredFor(wire, k) == DeliveriesOf(OutFor(wire, k))
  {
    hide Receive, DatagramBytes, ApplicationPacket, DeliveriesOf, PacketsOf, WireBounded, Sendable;
    if wire != [] {
      var prefix, d := wire[..|wire| - 1], wire[|wire| - 1];
      LastSendable(wire);
      DeliveredIsOut(prefix, k);
      forall i | 0 <= i < |PacketsOf(d)| ensures ApplicationPacket(PacketsOf(d)[i]) {
        assert PacketsOf(d)[i] in PacketsOf(wire[|wire| - 1]);
      }
      DatagramDelivered(d);
      if d.key == k {
        DeliveriesAppend(OutFor(prefix, k), PacketsOf(d));
      } else {
        assert OutFor(wire, k) == OutFor(prefix, k) && DeliveredFor(wire, k) == DeliveredFor(prefix, k);
      }
    } else {
      assert DeliveriesOf([]) == [];
    }
  }

  lemma LastSendable(wire: seq<Datagram>)
    requires WireBounded(wire) && wire != []
    ensures WireBounded(wire[..|wire| - 1]) && Sendable(wire[|wire| - 1])
  {}

  /** End to end, over any run: every datagram sent is taken apart into exactly the packets put
      into it, and what the peer delivers for a destination is, packet by packet and in the order
      they left, what was submitted for it, except what is still queued. */
  lemma PeerDeliversWhatWasSubmitted(run: seq<Call>, k: Key)
    requires AllLegal(run) && FromApplications(run)
    ensures var s := After(run);
            && (forall i :: 0 <= i < |OutFor(s.wire, k)| ==> |OutFor(s.wire, k)[i]| >= IPX_HEADER)
            && (forall i :: 0 <= i < |s.wire| ==> Sendable(s.wire[i]))
            && DeliveredFor(s.wire, k) == DeliveriesOf(OutFor(s.wire, k))
            && multiset(OutFor(s.wire, k)) + multiset(QueueOf(s, k)) == multiset(SubmittedFor(run, k))
  {
    var s := After(run);
    forall i, p | 0 <= i < |s.wire| && p in PacketsOf(s.wire[i]) ensures ApplicationPacket(p) {
      WireHoldsSubmitted(run, i, p);
    }
    DeliveredIsOut(s.wire, k);
    PacketsConserved(run, k);
  }

  /** When no send overtakes and the run ends with coalesce_cleanup, the peer delivers everything
      submitted for a destination, in submission order. */
  lemma PeerDeliversEverythingInOrder(run: seq<Call>, k: Key)
    requires AllLegal(run) && FromApplications(run) && NeverOvertakes(run, k)
    requires run != [] && run[|run| - 1].CleanupCall?
    ensures forall i :: 0 <= i < |SubmittedFor(run, k)| ==> |SubmittedFor(run, k)[i]| >= IPX_HEADER
    ensures forall i :: 0 <= i < |After(run).wire| ==> Sendable(After(run).wire[i])
    ensures DeliveredFor(After(run).wire, k) == DeliveriesOf(SubmittedFor(run, k))
  {
    PeerDeliversWhatWasSubmitted(run, k);
    OrderKept(run, k);
    CleanupStep(After(run[..|run| - 1]));
  }

  /** The packet ipx_send_packet() builds in DOSBox mode. Sockets are in network byte order. */
  function BuildPacket(ptype: Byte, dest: Key, srcNet: Net, srcNode: Node, srcSocket: nat, data: Bytes): (p: Bytes)
    requires dest.socket < 65536 && srcSocket < 65536 && IPX_HEADER + |data| < 65536
  {
    [0xFF, 0xFF] + BigEndian(IPX_HEADER + |data|) + [0, ptype]
    + dest.netnum + dest.nodenum + BigEndian(dest.socket)
    + srcNet + srcNode + BigEndian(srcSocket) + data
  }

  /** A packet sent from a bound socket is well formed, is no envelope whatever its type, and the
      receiver reads back every field. Numbers are in network byte order; there is no checksum and
      there have been no hops. */
  lemma BuiltPacketSurvives(ptype: Byte, dest: Key, srcNet: Net, srcNode: Node, srcSocket: nat, data: Bytes)
    requires dest.socket < 65536 && 0 < srcSocket < 65536 && IPX_HEADER + |data| < 65536
    ensures var p := BuildPacket(ptype, dest, srcNet, srcNode, srcSocket, data);
            && ApplicationPacket(p) && !IsEnvelope(p)
            && p[..2] == [0xFF, 0xFF] && 256 * p[2] as int + p[3] as int == |p| && p[4] == 0 && p[5] == ptype
            && p[6..10] == dest.netnum && p[10..16] == dest.nodenum && 256 * p[16] as int + p[17] as int == dest.socket
            && p[18..22] == srcNet && p[22..28] == srcNode && 256 * p[28] as int + p[29] as int == srcSocket
            && Receive(p) == Delivered([Delivery(ptype, dest.netnum + dest.nodenum + BigEndian(dest.socket),
                                                 srcNet + srcNode + BigEndian(srcSocket), data)])
  {
    var p := BuildPacket(ptype, dest, srcNet, srcNode, srcSocket, data);
    assert p[2..4] == BigEndian(IPX_HEADER + |data|);
    assert p[28..30] == BigEndian(srcSocket);
    assert p[28] == p[28..30][0] && p[29] == p[28..30][1];
    assert p[16..18] == BigEndian(dest.socket) && p[16] == p[16..18][0] && p[17] == p[16..18][1];
    assert p[6..10] == dest.netnum && p[10..16] == dest.nodenum && p[18..22] == srcNet && p[22..28] == srcNode;
    assert p[6..18] == dest.netnum + dest.nodenum + BigEndian(dest.socket);
    assert p[18..30] == srcNet + srcNode + BigEndian(srcSocket);
    assert p[30..] == data;
  }

  /** _complete_bind: a requested socket number, or the first free one from 1024 up. */
  method CompleteBind(requested: int, taken: set<int>, reuse: bool) returns (bound: int)
    requires 0 <= requested < 65536
    ensures bound == 0 <==> if requested != 0 then requested in taken && !reuse
                            else forall n :: 1024 <= n < 65536 ==> n in taken
    ensures bound != 0 && requested != 0 ==> bound == requested
    ensures bound != 0 && requested == 0 ==>
              1024 <= bound < 65536 && bound !in taken && forall n :: 1024 <= n < bound ==> n in taken
  {
    if requested == 0 {
      var socknum := 1024;
      while true
        invariant 1024 <= socknum < 65536 && forall n :: 1024 <= n < socknum ==> n in taken
        decreases 65536 - socknum
      {
        if socknum !in taken { return socknum; }
        if socknum == 65535 { break; }
        socknum := socknum + 1;
      }
      return 0;
    }
    bound := if requested in taken && !reuse then 0 else requested;
  }
}
