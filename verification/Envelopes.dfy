/** The envelope format: queued packets end to end behind a header, and what a packet delivers. */
module Envelopes {
  import opened Ipx
  import opened Coalesce

  function Concat(packets: seq<Bytes>): Bytes {
    if packets == [] then [] else Concat(packets[..|packets| - 1]) + packets[|packets| - 1]
  }

  /** The header with its length field set, as coalesce_flush() does before sending. */
  function WithLength(header: Bytes, n: nat): (h: Bytes)
    requires |header| >= 4 && n < 65536
    ensures |h| == |header| && BigEndian16(h, 2) == n && h[..2] == header[..2]
    ensures forall i :: 4 <= i < |h| ==> h[i] == header[i]
  {
    header[..2] + BigEndian(n) + header[4..]
  }

  /** The bytes handed to r_sendto(). */
  function DatagramBytes(d: Datagram): (b: Bytes)
    requires d.Envelope? ==> |d.header| == IPX_HEADER && IPX_HEADER + TotalLen(d.packets) < 65536
  {
    match d
    case Direct(_, p) => p
    case Envelope(_, h, ps) => WithLength(h, IPX_HEADER + TotalLen(ps)) + Concat(ps)
  }

  lemma {:induction false} ConcatLength(packets: seq<Bytes>)
    ensures |Concat(packets)| == TotalLen(packets)
  {
    if packets != [] { ConcatLength(packets[..|packets| - 1]); }
  }

  // ----- the receiving side -----

  /** The arguments deliver_packet() gets: type, the two 12-byte addresses, payload. */
  datatype Delivery = Delivery(ptype: Byte, dest: Bytes, src: Bytes, data: Bytes)

  function DeliveryOf(p: Bytes): Delivery
    requires |p| >= IPX_HEADER
  {
    Delivery(p[5], p[6..18], p[18..30], p[30..])
  }

  function DeliveriesOf(packets: seq<Bytes>): (d: seq<Delivery>)
    requires forall i :: 0 <= i < |packets| ==> |packets[i]| >= IPX_HEADER
    ensures |d| == |packets|
  {
    seq(|packets|, i requires 0 <= i < |packets| => DeliveryOf(packets[i]))
  }

  /** A packet as ipx_send_packet() builds it: its length field covers exactly the packet. */
  predicate WellFormedPacket(p: Bytes) {
    |p| >= IPX_HEADER && BigEndian16(p, 2) == |p|
  }

  /** To whoever does not take an envelope apart it is a packet of type 2 from socket zero of the
      sender to socket zero of the destination, well formed and with all packets for payload. */
  lemma EnvelopeIsPacket(key: Key, localNet: Net, localNode: Node, packets: seq<Bytes>)
    requires IPX_HEADER + TotalLen(packets) < 65536
    ensures var bytes := DatagramBytes(Envelope(key, HeaderFor(key, localNet, localNode), packets));
            && WellFormedPacket(bytes) && bytes[..2] == [0xFF, 0xFF] && bytes[4] == 0
            && DeliveryOf(bytes) == Delivery(2, key.netnum + key.nodenum + [0, 0], localNet + localNode + [0, 0], Concat(packets))
  {
    hide HeaderFor, EnvelopeHeader, Concat, TotalLen;
    ConcatLength(packets);
    HeaderFields(key, localNet, localNode);
    var header := HeaderFor(key, localNet, localNode);
    var bytes := DatagramBytes(Envelope(key, header, packets));
    assert bytes[6..18] == header[6..18] && bytes[18..30] == header[18..30];
    assert bytes[..2] == header[..2] && bytes[30..] == Concat(packets);
  }

  lemma HeaderFields(key: Key, localNet: Net, localNode: Node)
    ensures var h := HeaderFor(key, localNet, localNode);
            && |h| == IPX_HEADER && h[..2] == [0xFF, 0xFF] && h[4] == 0 && h[5] == 2
            && h[6..18] == key.netnum + key.nodenum + [0, 0] && h[18..30] == localNet + localNode + [0, 0]
  {}

  lemma ConcatSnoc(packets: seq<Bytes>, p: Bytes)
    ensures Concat(packets + [p]) == Concat(packets) + p
  {}

  lemma MiddleAndEnd(packets: seq<Bytes>)
    requires |packets| > 1
    ensures var last := |packets| - 1;
            && packets[..last][1..] == packets[1..last]
            && packets[1..] == packets[1..last] + [packets[last]]
            && packets == packets[..last] + [packets[last]]
  {}

  lemma OnePacket(packets: seq<Bytes>)
    requires |packets| == 1
    ensures Concat(packets) == packets[0] && Concat(packets[1..]) == []
  {
    assert packets[..0] == [] && [] + packets[0] == packets[0];
  }

  lemma {:induction false} ConcatCons(packets: seq<Bytes>)
    requires packets != []
    ensures Concat(packets) == packets[0] + Concat(packets[1..])
  {
    hide Concat;
    var last := |packets| - 1;
    if last == 0 {
      OnePacket(packets);
    } else {
      var middle, end := packets[1..last], packets[last];
      ConcatCons(packets[..last]);
      MiddleAndEnd(packets);
      ConcatSnoc(middle, end);
      ConcatSnoc(packets[..last], end);
    }
  }

  lemma DeliveriesCons(packets: seq<Bytes>)
    requires packets != [] && forall i :: 0 <= i < |packets| ==> |packets[i]| >= IPX_HEADER
    ensures DeliveriesOf(packets) == [DeliveryOf(packets[0])] + DeliveriesOf(packets[1..])
  {}

  lemma DeliveriesAppend(ps: seq<Bytes>, qs: seq<Bytes>)
    requires forall i :: 0 <= i < |ps| ==> |ps[i]| >= IPX_HEADER
    requires forall i :: 0 <= i < |qs| ==> |qs[i]| >= IPX_HEADER
    ensures forall i :: 0 <= i < |ps + qs| ==> |(ps + qs)[i]| >= IPX_HEADER
    ensures DeliveriesOf(ps + qs) == DeliveriesOf(ps) + DeliveriesOf(qs)
  {}
}
