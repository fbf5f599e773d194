/** A payload's way through UDP encapsulation: sendto(), the peer's router, the loopback relay to
    the emulated socket, and recv(). */
module UdpPath {
  import opened Ipx
  import opened Options
  import opened RecvQueue

  type Address = b: Bytes | |b| == 12 witness [0, 0, 0, 0, 0, 0, 0, 0, 0, 0, 0, 0]

  /** The addressing fields of an ipx_packet; an address is net, node and socket, 4 + 6 + 2 bytes. */
  datatype Header = Header(ptype: Byte, dest: Address, src: Address)

  function Encode(h: Header, size: Bytes, data: Bytes): (b: Bytes)
    requires |size| == 2
    ensures |b| == HEADER + |data|
  {
    [h.ptype] + h.dest + h.src + size + data
  }

  /** What ipx_send_packet() sends over UDP: the size field is in network byte order. */
  function SentPacket(h: Header, data: Bytes): Bytes
    requires |data| < 65536
  {
    Encode(h, BigEndian(|data|), data)
  }

  /** What deliver_packet() relays to a local socket: the size field is in host byte order. */
  function RelayedPacket(h: Header, data: Bytes): Bytes
    requires |data| < 65536
  {
    Encode(h, LittleEndian(|data|), data)
  }

  function HeaderOf(packet: Bytes): Header
    requires |packet| >= HEADER
  {
    Header(packet[0], packet[1..13], packet[13..25])
  }

  /** What _handle_udp_recv makes of a datagram: nothing, internal traffic (source socket zero),
      or a packet to pass to deliver_packet() if it came from an expected subnet. */
  datatype Handling = Ignored | Internal | Passed(header: Header, data: Bytes)

  function HandleUdp(packet: Bytes): Handling {
    if |packet| < HEADER then Ignored
    else
      var size := BigEndian16(packet, 25);
      if size > MAX_DATA_SIZE || size + HEADER != |packet| then Ignored
      else if packet[23] == 0 && packet[24] == 0 then Internal
      else Passed(HeaderOf(packet), packet[HEADER..])
  }

  /** Every payload of up to 8192 bytes from a bound socket survives: the peer's router passes it
      on, the relay fits MAX_PKT_SIZE, recv_pump() accepts it, and the reader finds the type, both
      addresses and the payload. */
  lemma PayloadSurvives(h: Header, data: Bytes)
    requires |data| <= MAX_DATA_SIZE && (h.src[10] != 0 || h.src[11] != 0)
    ensures HandleUdp(SentPacket(h, data)) == Passed(h, data)
    ensures var relayed := RelayedPacket(h, data);
            && |relayed| <= MAX_PKT_SIZE && Acceptable(relayed)
            && HeaderOf(relayed) == h && relayed[HEADER..] == data
  {
  }

  /** A reader of a relay that asks for it is told the address the packet was sent from and its
      type, whether it was sent to the broadcast node, and whether from an own interface. */
  lemma SourceSurvives(h: Header, data: Bytes, interfaces: set<Bytes>)
    requires |data| <= MAX_DATA_SIZE
    ensures SourceOf(RelayedPacket(h, data), false, interfaces) == Source(h.src, None)
    ensures match SourceOf(RelayedPacket(h, data), true, interfaces)
            case Source(addr, None) => false
            case Source(addr, Some(Extension(ptype, flags))) =>
              && addr == h.src && ptype == h.ptype && 0 <= flags < 4
              && (flags % 2 == 1 <==> h.dest[4..10] == [0xFF, 0xFF, 0xFF, 0xFF, 0xFF, 0xFF])
              && (flags / 2 == 1 <==> h.src[..10] in interfaces)
  {
    hide LittleEndian;
    var p := RelayedPacket(h, data);
    assert p[5..11] == p[1..13][4..10] && p[13..23] == p[13..25][..10];
    assert seq(6, _ => 0xFF) == [0xFF, 0xFF, 0xFF, 0xFF, 0xFF, 0xFF];
  }

  /** What the router makes of a datagram, by its bytes: it ignores what is too short for a header,
      too long or not as long as its size field says; of the rest it takes what comes from socket
      zero for its own traffic, and passes on everything else. */
  lemma HandledIff(packet: Bytes)
    ensures HandleUdp(packet) == Ignored
       <==> |packet| < 27 || 256 * packet[25] as int + packet[26] as int != |packet| - 27 || |packet| > 8192 + 27
    ensures HandleUdp(packet) != Ignored ==> (HandleUdp(packet) == Internal <==> packet[23] == packet[24] == 0)
    ensures HandleUdp(packet).Passed? ==>
              HandleUdp(packet) == Passed(Header(packet[0], packet[1..13], packet[13..25]), packet[27..])
  {}

  /** Conversely the router passes on nothing but such packets: whatever it passes on was sent as
      exactly that header and payload, and its relay is never discarded by recv_pump(). */
  lemma PassedWasSent(packet: Bytes)
    requires HandleUdp(packet).Passed?
    ensures var Passed(h, data) := HandleUdp(packet);
            && |data| <= MAX_DATA_SIZE && packet == SentPacket(h, data) && Acceptable(RelayedPacket(h, data))
  {}

  /** A payload longer than 8192 bytes, as an Ethernet II frame can carry, is relayed but never
      read: recv_pump() accepts a relay exactly up to the size that fits a queue slot. */
  lemma RelayAcceptedIff(h: Header, data: Bytes)
    requires |data| < 65536
    ensures Acceptable(RelayedPacket(h, data)) <==> |data| <= MAX_DATA_SIZE
  {}

  /** A packet in network byte order is not what recv_pump() accepts, unless the two bytes of its
      size are equal: the relay's change of byte order is needed. */
  lemma ByteOrderMatters(h: Header, data: Bytes)
    requires |data| <= MAX_DATA_SIZE
    ensures Acceptable(SentPacket(h, data)) <==> |data| / 256 == |data| % 256
  {}
}
