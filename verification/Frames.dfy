/** The three Ethernet framings of IPX (ethernet.c) and the receive path that undoes them. The
    length/type field is that of IEEE 802.3 clause 3.2.6, the LLC header that of IEEE 802.2 clause 3. */
module Frames {
  import opened Ipx
  import opened Coalesce
  import opened Envelopes
  import opened EnvelopeWalks

  datatype FrameType = EthernetII | Novell | Llc

  type Word = b: Bytes | |b| == 2 witness [0, 0]

  /** What is sent: the packet type, both addresses with their sockets in network byte order. */
  datatype Fields = Fields(ptype: Byte, srcNet: Net, srcNode: Node, srcSocket: Word,
                           destNet: Net, destNode: Node, destSocket: Word)

  const ETHERNET_HEADER := 14
  const LLC_HEADER := 3
  const ETHERTYPE_IPX := 0x8137
  const MAX_PAYLOAD := 65535 - 30

  /** *_frame_size: zero when the payload is too large for the frame type. */
  function FrameSize(t: FrameType, payloadLen: nat): nat {
    match t
    case EthernetII => if payloadLen > MAX_PAYLOAD then 0 else ETHERNET_HEADER + IPX_HEADER + payloadLen
    case Novell =>
      if payloadLen > MAX_PAYLOAD || payloadLen > 1500 - IPX_HEADER then 0
      else ETHERNET_HEADER + IPX_HEADER + payloadLen
    case Llc =>
      if payloadLen > MAX_PAYLOAD || payloadLen > 1500 - (LLC_HEADER + IPX_HEADER) then 0
      else ETHERNET_HEADER + LLC_HEADER + IPX_HEADER + payloadLen
  }

  /** _pack_ipx_packet */
  function PackPacket(f: Fields, payload: Bytes): (p: Bytes)
    requires |payload| <= MAX_PAYLOAD
    ensures |p| == IPX_HEADER + |payload|
  {
    [0xFF, 0xFF] + BigEndian(IPX_HEADER + |payload|) + [0, f.ptype]
    + f.destNet + f.destNode + f.destSocket + f.srcNet + f.srcNode + f.srcSocket + payload
  }

  /** What *_frame_pack puts before the packet. */
  function PackHeader(t: FrameType, f: Fields, payloadLen: nat): (h: Bytes)
    requires FrameSize(t, payloadLen) != 0
    ensures |h| == ETHERNET_HEADER + if t == Llc then LLC_HEADER else 0
  {
    f.destNode + f.srcNode +
    match t
    case EthernetII => BigEndian(ETHERTYPE_IPX)
    case Novell => BigEndian(IPX_HEADER + payloadLen)
    case Llc => BigEndian(LLC_HEADER + IPX_HEADER + payloadLen) + [0xE0, 0xE0, 0x03]
  }

  function Frame(t: FrameType, f: Fields, payload: Bytes): (b: Bytes)
    requires FrameSize(t, |payload|) != 0
    ensures |b| == FrameSize(t, |payload|)
  {
    PackHeader(t, f, |payload|) + PackPacket(f, payload)
  }

  /** memcpy */
  method Copy(buffer: array<Byte>, at: nat, bytes: Bytes)
    requires at + |bytes| <= buffer.Length
    modifies buffer
    ensures buffer[..at] == old(buffer[..at]) && buffer[at..at + |bytes|] == bytes
    ensures buffer[at + |bytes|..] == old(buffer[at + |bytes|..])
  {
    for i := 0 to |bytes|
      invariant buffer[..at] == old(buffer[..at]) && buffer[at..at + i] == bytes[..i]
      invariant buffer[at + i..] == old(buffer[at + i..])
    {
      buffer[at + i] := bytes[i];
      assert buffer[at..at + i + 1] == buffer[at..at + i] + [bytes[i]];
      assert buffer[at + i + 1..] == buffer[at + i..][1..];
      assert old(buffer[at + i + 1..]) == old(buffer[at + i..])[1..];
    }
  }

  /** *_frame_pack: writes exactly the frame, however much larger the buffer is. */
  method Pack(t: FrameType, buffer: array<Byte>, f: Fields, payload: Bytes)
    requires FrameSize(t, |payload|) != 0 && buffer.Length >= FrameSize(t, |payload|)
    modifies buffer
    ensures buffer[..FrameSize(t, |payload|)] == Frame(t, f, payload)
    ensures buffer[FrameSize(t, |payload|)..] == old(buffer[FrameSize(t, |payload|)..])
  {
    hide PackHeader, PackPacket;
    var header, packet := PackHeader(t, f, |payload|), PackPacket(f, payload);
    var h, n := |header|, FrameSize(t, |payload|);
    ghost var was := buffer[..];
    Copy(buffer, 0, header);
    assert buffer[h..] == was[h..] && buffer[..h] == header;
    ghost var middle := buffer[..];
    Copy(buffer, h, packet);
    assert buffer[..h] == middle[..h] && buffer[n..] == middle[n..];
    assert middle[n..] == middle[h..][n - h..] && was[n..] == was[h..][n - h..];
    assert buffer[..n] == buffer[..h] + buffer[h..n];
  }

  /** Where *_frame_unpack finds the packet, and how long it takes it to be. */
  datatype Unpacked = Invalid | Found(offset: nat, length: nat)

  /** *_frame_unpack */
  function Unpack(t: FrameType, frame: Bytes): (u: Unpacked)
    ensures u.Found? ==> IPX_HEADER <= u.length <= |frame| - u.offset
  {
    if |frame| < ETHERNET_HEADER + (if t == Llc then LLC_HEADER else 0) + IPX_HEADER then Invalid
    else
      var field := BigEndian16(frame, 12);
      match t
      case EthernetII =>
        if field != ETHERTYPE_IPX then Invalid else Found(ETHERNET_HEADER, |frame| - ETHERNET_HEADER)
      case Novell =>
        if field > 1500 || field < IPX_HEADER || field > |frame| - ETHERNET_HEADER then Invalid
        else Found(ETHERNET_HEADER, field)
      case Llc =>
        if field > 1500 || field < LLC_HEADER + IPX_HEADER || field > |frame| - ETHERNET_HEADER then Invalid
        else if frame[14] != 0xE0 || frame[16] != 0x03 then Invalid
        else Found(ETHERNET_HEADER + LLC_HEADER, field - LLC_HEADER)
  }

  const BROADCAST: Bytes := [0xFF, 0xFF, 0xFF, 0xFF, 0xFF, 0xFF]

  /** _handle_pcap_frame on an interface whose card has address mac. The length field of a packet
      may be smaller than its header: then the 32-bit data size wraps round. */
  function HandleFrame(t: FrameType, frame: Bytes, mac: Node): Outcome {
    match Unpack(t, frame)
    case Invalid => Dropped
    case Found(at, length) =>
      var p := frame[at..];
      var claimed := BigEndian16(p, 2);
      if p[0] != 0xFF || p[1] != 0xFF || claimed > length then Dropped
      else if p[6..18][4..10] != mac && p[6..18][4..10] != BROADCAST then Dropped
      else
        var dataSize := SizeT(claimed - IPX_HEADER);
        if Inside(frame, DeliverCall(at, dataSize))
        then Delivered([DeliveryOf(frame[at..at + IPX_HEADER + dataSize])])
        else Misread([])
  }

  /** What a card that is not in promiscuous mode passes on: frames for its address, and broadcasts. */
  predicate CardTakes(frame: Bytes, mac: Node) {
    |frame| >= 6 && (frame[..6] == mac || frame[..6] == BROADCAST)
  }

  /** What becomes of a frame at the machine whose card has address mac. */
  function OnWire(t: FrameType, frame: Bytes, mac: Node): Outcome {
    if CardTakes(frame, mac) then HandleFrame(t, frame, mac) else Dropped
  }

  // ----- what happens to an arbitrary frame, by its bytes -----

  /** Where the packet of a frame of this type starts. */
  function PacketAt(t: FrameType): nat {
    if t == Llc then ETHERNET_HEADER + LLC_HEADER else ETHERNET_HEADER
  }

  /** The framing is right: type or length field, LLC bytes, and room for a packet header. */
  predicate Framed(t: FrameType, frame: Bytes) {
    && |frame| >= PacketAt(t) + IPX_HEADER
    && match t
       case EthernetII => BigEndian16(frame, 12) == ETHERTYPE_IPX
       case Novell => IPX_HEADER <= BigEndian16(frame, 12) <= 1500 && 14 + BigEndian16(frame, 12) <= |frame|
       case Llc =>
         && 33 <= BigEndian16(frame, 12) <= 1500 && 14 + BigEndian16(frame, 12) <= |frame|
         && frame[14] == 0xE0 && frame[16] == 0x03
  }

  /** The room the framing leaves for the packet. */
  function Room(t: FrameType, frame: Bytes): int
    requires |frame| >= 14
  {
    match t
    case EthernetII => |frame| - 14
    case Novell => BigEndian16(frame, 12)
    case Llc => BigEndian16(frame, 12) - 3
  }

  /** The packet says it is IPX and for this card. */
  predicate Meant(t: FrameType, frame: Bytes, mac: Node)
    requires |frame| >= PacketAt(t) + IPX_HEADER
  {
    var at := PacketAt(t);
    frame[at] == 0xFF && frame[at + 1] == 0xFF && (frame[at + 10..at + 16] == mac || frame[at + 10..at + 16] == BROADCAST)
  }

  function LengthField(t: FrameType, frame: Bytes): (n: nat)
    requires |frame| >= PacketAt(t) + IPX_HEADER
    ensures n < 65536
  {
    BigEndian16(frame, PacketAt(t) + 2)
  }

  lemma PacketBytes(t: FrameType, frame: Bytes)
    requires |frame| >= PacketAt(t) + IPX_HEADER
    ensures var at := PacketAt(t);
            var p := frame[at..];
            && p[0] == frame[at] && p[1] == frame[at + 1] && BigEndian16(p, 2) == LengthField(t, frame)
            && p[6..18][4..10] == frame[at + 10..at + 16]
  {
    NodeOf(frame, PacketAt(t));
  }

  lemma NodeOf(frame: Bytes, at: nat)
    requires |frame| >= at + IPX_HEADER
    ensures frame[at..][6..18][4..10] == frame[at + 10..at + 16]
  {
    var a, b := frame[at..][6..18][4..10], frame[at + 10..at + 16];
    forall i | 0 <= i < 6 ensures a[i] == b[i] {
      assert a[i] == frame[at..][6..18][4 + i];
      assert frame[at..][6..18][4 + i] == frame[at..][10 + i];
      assert frame[at..][10 + i] == frame[at + 10 + i];
    }
    assert a == b;
  }

  /** Every captured frame, of any framing, is dropped unless it is framed right, meant for the
      card and long enough for its packet; of those it is misread if and only if the packet's
      length field is below 30, and delivered otherwise, as exactly the well-formed packet of that
      length which it holds. */
  lemma FrameOutcomeIff(t: FrameType, frame: Bytes, mac: Node)
    requires |frame| < 0x1_0000_0000
    ensures HandleFrame(t, frame, mac) == Misread([])
       <==> Framed(t, frame) && Meant(t, frame, mac) && LengthField(t, frame) < IPX_HEADER
    ensures HandleFrame(t, frame, mac).Delivered?
       <==> Framed(t, frame) && Meant(t, frame, mac) && IPX_HEADER <= LengthField(t, frame) <= Room(t, frame)
    ensures HandleFrame(t, frame, mac).Delivered? ==>
              var at, n := PacketAt(t), LengthField(t, frame);
              && at + n <= |frame| && WellFormedPacket(frame[at..at + n])
              && HandleFrame(t, frame, mac) == Delivered([DeliveryOf(frame[at..at + n])])
    ensures HandleFrame(t, frame, mac) in {Dropped, Misread([])} || HandleFrame(t, frame, mac).Delivered?
  {
    hide DeliveryOf, SizeT;
    if Framed(t, frame) { PacketBytes(t, frame); }
  }

  /** It happens: a 44-byte Ethernet II frame whose packet claims 20 bytes is misread by the card
      it is for. */
  lemma ShortPacketMisread(frame: Bytes, mac: Node)
    requires |frame| == 44 && frame[12] == 0x81 && frame[13] == 0x37 && frame[14] == 0xFF && frame[15] == 0xFF
    requires frame[16] == 0 && frame[17] == 20 && frame[24..30] == mac
    ensures HandleFrame(EthernetII, frame, mac) == Misread([])
  {
    FrameOutcomeIff(EthernetII, frame, mac);
  }

  /** The 16-bit length/type field of a frame. */
  lemma FieldOf(t: FrameType, f: Fields, payload: Bytes, padding: Bytes)
    requires FrameSize(t, |payload|) != 0
    ensures BigEndian16(Frame(t, f, payload) + padding, 12)
         == match t
            case EthernetII => ETHERTYPE_IPX
            case Novell => IPX_HEADER + |payload|
            case Llc => LLC_HEADER + IPX_HEADER + |payload|
  {}

  lemma PacketFields(f: Fields, payload: Bytes, padding: Bytes)
    requires |payload| <= MAX_PAYLOAD
    ensures var p := PackPacket(f, payload) + padding;
            && p[0] == p[1] == 0xFF && BigEndian16(p, 2) == IPX_HEADER + |payload|
            && p[6..18][4..10] == f.destNode
            && DeliveryOf(p[..IPX_HEADER + |payload|])
               == Delivery(f.ptype, f.destNet + f.destNode + f.destSocket, f.srcNet + f.srcNode + f.srcSocket, payload)
  {
    var p := PackPacket(f, payload) + padding;
    assert p[2..4] == BigEndian(IPX_HEADER + |payload|);
    assert p[2..4][0] == p[2] && p[2..4][1] == p[3];
    assert p[6..18] == f.destNet + f.destNode + f.destSocket;
    assert p[18..30] == f.srcNet + f.srcNode + f.srcSocket;
    assert p[30..IPX_HEADER + |payload|] == payload;
    var q := p[..IPX_HEADER + |payload|];
    assert q[6..18] == p[6..18] && q[18..30] == p[18..30] && q[30..] == p[30..IPX_HEADER + |payload|];
  }

  /** Where the packet is in a frame, and the LLC bytes before it. */
  lemma FrameParts(t: FrameType, f: Fields, payload: Bytes, padding: Bytes)
    requires FrameSize(t, |payload|) != 0
    ensures var frame, at := Frame(t, f, payload) + padding, ETHERNET_HEADER + if t == Llc then LLC_HEADER else 0;
            && |frame| == FrameSize(t, |payload|) + |padding|
            && frame[at..] == PackPacket(f, payload) + padding && frame[at] == 0xFF
            && (t == Llc ==> frame[14] == 0xE0 && frame[16] == 0x03)
  {}

  /** Packing, any amount of trailing padding, unpacking and the IPX length trim give every field
      and the payload back, behind the card the frame is for and behind every card for a broadcast;
      behind any other card nothing arrives. */
  lemma FrameRoundTrip(t: FrameType, f: Fields, payload: Bytes, padding: Bytes, mac: Node)
    requires FrameSize(t, |payload|) != 0
    ensures OnWire(t, Frame(t, f, payload) + padding, mac)
         == if f.destNode == mac || f.destNode == BROADCAST
            then Delivered([Delivery(f.ptype, f.destNet + f.destNode + f.destSocket,
                                     f.srcNet + f.srcNode + f.srcSocket, payload)])
            else Dropped
  {
    hide Frame, PackHeader, PackPacket, DeliveryOf, BigEndian;
    FieldOf(t, f, payload, padding);
    PacketFields(f, payload, padding);
    FrameParts(t, f, payload, padding);
    FrameLayout(t, f, payload, padding);
    var at := PacketAt(t);
    var frame := Frame(t, f, payload) + padding;
    assert frame[at..at + IPX_HEADER + |payload|] == frame[at..][..IPX_HEADER + |payload|];
  }

  /** Which payloads fit: for Ethernet II what the packet's length field can say, for the others what
      leaves the length field of the frame at 1500 or below. */
  lemma FitsIff(t: FrameType, payloadLen: nat)
    ensures FrameSize(t, payloadLen) != 0 <==> PacketAt(t) - 14 + 30 + payloadLen <= if t == EthernetII then 65535 else 1500
  {}

  /** The bytes other cards and other implementations look at: first the destination's address, then
      the sender's; in an LLC frame the NetWare SAP twice and the control byte of an unnumbered frame;
      in the packet no checksum and no hops so far. */
  lemma FrameLayout(t: FrameType, f: Fields, payload: Bytes, padding: Bytes)
    requires FrameSize(t, |payload|) != 0
    ensures var frame, at := Frame(t, f, payload) + padding, PacketAt(t);
            && |frame| == FrameSize(t, |payload|) + |padding| && FrameSize(t, |payload|) == at + IPX_HEADER + |payload|
            && frame[..6] == f.destNode && frame[6..12] == f.srcNode
            && (t == Llc ==> frame[14..17] == [0xE0, 0xE0, 0x03])
            && frame[at..at + 2] == [0xFF, 0xFF] && frame[at + 4] == 0 && frame[at + 5] == f.ptype
  {
    var frame := Frame(t, f, payload) + padding;
    assert frame[..6] == f.destNode;
    assert frame[6..12] == f.srcNode;
    assert frame[PacketAt(t)..PacketAt(t) + 2] == [0xFF, 0xFF];
  }

  /** A receiver set to one frame type drops every frame packed as another, whatever follows it. */
  lemma OtherTypesDropped(t: FrameType, other: FrameType, f: Fields, payload: Bytes, padding: Bytes, mac: Node)
    requires t != other && FrameSize(t, |payload|) != 0
    ensures HandleFrame(other, Frame(t, f, payload) + padding, mac) == Dropped
  {}
}
