/** The receiving side of coalescing: how _handle_dosbox_recv takes an envelope apart, on every
    datagram, whoever sent it. */
module EnvelopeWalks {
  import opened Ipx
  import opened Coalesce
  import opened Envelopes

  /** The length field of the inner packet at offset p. */
  function LengthAt(payload: Bytes, p: nat): (n: nat)
    requires p + 4 <= |payload|
    ensures n < 65536
  {
    BigEndian16(payload, p + 2)
  }

  /** What becomes of the loop that checks the lengths: it accepts or rejects the payload, stays
      for ever at a zero length, or reads a length field that is not in the datagram. */
  datatype Walk = Accepts | Rejects | Hangs | Leaves

  /** The checking loop from offset p. remaining_data is never counted down, so every length is
      compared with the whole payload. */
  function FirstWalk(payload: Bytes, p: nat): Walk
    decreases |payload| - p
  {
    if p >= |payload| then Accepts
    else if |payload| < IPX_HEADER then Rejects
    else if p + 4 > |payload| then Leaves
    else
      var length := LengthAt(payload, p);
      if length > |payload| then Rejects
      else if length == 0 then Hangs
      else FirstWalk(payload, p + length)
  }

  /** A 32-bit size_t. */
  function SizeT(x: int): (n: nat)
    requires -0x1_0000_0000 <= x < 0x1_0000_0000
    ensures n == if x < 0 then x + 0x1_0000_0000 else x
  {
    x % 0x1_0000_0000
  }

  /** A call of deliver_packet(): where the packet is, and the data size. */
  datatype DeliverCall = DeliverCall(at: nat, dataSize: nat)

  /** The calls the delivering loop makes from offset p of an accepted payload. */
  function Calls(payload: Bytes, p: nat): seq<DeliverCall>
    requires FirstWalk(payload, p) == Accepts
    decreases |payload| - p
  {
    if p >= |payload| then []
    else
      var length := LengthAt(payload, p);
      [DeliverCall(p, SizeT(length - IPX_HEADER))] + Calls(payload, p + length)
  }

  /** The call reads nothing but bytes of the datagram. */
  predicate Inside(payload: Bytes, c: DeliverCall) {
    c.at + IPX_HEADER + c.dataSize <= |payload|
  }

  /** What is delivered before the first call that reads past the datagram, if there is one. */
  function Deliveries(payload: Bytes, calls: seq<DeliverCall>): (d: seq<Delivery>)
    ensures |d| <= |calls|
  {
    if calls == [] || !Inside(payload, calls[0]) then []
    else
      [DeliveryOf(payload[calls[0].at..calls[0].at + IPX_HEADER + calls[0].dataSize])] + Deliveries(payload, calls[1..])
  }

  /** Every call stays inside the datagram. */
  ghost predicate AllInside(payload: Bytes, calls: seq<DeliverCall>) {
    forall i :: 0 <= i < |calls| ==> Inside(payload, calls[i])
  }

  lemma {:induction false} AllDelivered(payload: Bytes, calls: seq<DeliverCall>)
    ensures AllInside(payload, calls) <==> |Deliveries(payload, calls)| == |calls|
  {
    if calls != [] {
      AllDelivered(payload, calls[1..]);
      if Inside(payload, calls[0]) { assert calls == [calls[0]] + calls[1..]; }
    }
  }

  /** What becomes of a datagram from the server. Misread delivers these packets and then data
      that is not in the datagram. */
  datatype Outcome = Dropped | Delivered(packets: seq<Delivery>) | Misread(before: seq<Delivery>) | Hung | Astray

  predicate IsEnvelope(packet: Bytes)
    requires |packet| >= IPX_HEADER
  {
    packet[28] == 0 && packet[29] == 0 && packet[5] == 2
  }

  /** _handle_dosbox_recv */
  function Receive(packet: Bytes): Outcome {
    if |packet| < IPX_HEADER || BigEndian16(packet, 2) != |packet| then Dropped
    else if !IsEnvelope(packet) then Delivered([DeliveryOf(packet)])
    else
      var payload := packet[IPX_HEADER..];
      match FirstWalk(payload, 0)
      case Rejects => Dropped
      case Hangs => Hung
      case Leaves => Astray
      case Accepts =>
        var calls := Calls(payload, 0);
        var delivered := Deliveries(payload, calls);
        if |delivered| == |calls| then Delivered(delivered) else Misread(delivered)
  }

  // ----- the loops -----

  /** The loop that checks the lengths of the inner packets. Where it would not advance, and where
      it would read a length that is not in the datagram, this says so and stops. */
  method CheckLengths(inner: Bytes) returns (walk: Walk)
    ensures walk == FirstWalk(inner, 0)
  {
    var p := 0;
    while p < |inner|
      invariant 0 <= p && FirstWalk(inner, p) == FirstWalk(inner, 0)
      decreases |inner| - p
    {
      if |inner| < IPX_HEADER { return Rejects; }
      if p + 4 > |inner| { return Leaves; }
      var length := BigEndian16(inner, p + 2);
      if length > |inner| { return Rejects; }
      if length == 0 { return Hangs; }
      p := p + length;
    }
    return Accepts;
  }

  /** What one pass of the delivering loop contributes. */
  lemma DeliverStep(inner: Bytes, p: nat)
    requires p < |inner| && FirstWalk(inner, p) == Accepts
    ensures p + 4 <= |inner| && LengthAt(inner, p) > 0 && FirstWalk(inner, p + LengthAt(inner, p)) == Accepts
    ensures var c, after := DeliverCall(p, SizeT(LengthAt(inner, p) - IPX_HEADER)), Calls(inner, p + LengthAt(inner, p));
            && Calls(inner, p) == [c] + after
            && Deliveries(inner, Calls(inner, p)) == if Inside(inner, c)
               then [DeliveryOf(inner[p..p + IPX_HEADER + c.dataSize])] + Deliveries(inner, after) else []
  {
    hide SizeT, DeliveryOf;
  }

  /** The loop that delivers the inner packets, up to the first one that is not all there. */
  method DeliverInner(inner: Bytes) returns (delivered: seq<Delivery>, misread: bool)
    requires FirstWalk(inner, 0) == Accepts
    ensures delivered == Deliveries(inner, Calls(inner, 0))
    ensures misread <==> |delivered| < |Calls(inner, 0)|
  {
    hide FirstWalk, Calls, Deliveries, DeliveryOf, SizeT, BigEndian16;
    delivered := [];
    var p := 0;
    while p < |inner|
      invariant 0 <= p && FirstWalk(inner, p) == Accepts
      invariant Deliveries(inner, Calls(inner, 0)) == delivered + Deliveries(inner, Calls(inner, p))
      invariant |Calls(inner, 0)| == |delivered| + |Calls(inner, p)|
      decreases |inner| - p
    {
      DeliverStep(inner, p);
      var length := BigEndian16(inner, p + 2);
      var dataSize := SizeT(length - IPX_HEADER);
      if p + IPX_HEADER + dataSize > |inner| {
        return delivered, true;
      }
      var delivery := DeliveryOf(inner[p..p + IPX_HEADER + dataSize]);
      ghost var rest := Deliveries(inner, Calls(inner, p + length));
      assert delivered + ([delivery] + rest) == (delivered + [delivery]) + rest;
      delivered := delivered + [delivery];
      p := p + length;
    }
    NothingLeft(inner, p);
    return delivered, false;
  }

  lemma NothingLeft(inner: Bytes, p: nat)
    requires p >= |inner|
    ensures FirstWalk(inner, p) == Accepts && Calls(inner, p) == [] && Deliveries(inner, Calls(inner, p)) == []
  {}

  /** _handle_dosbox_recv */
  method HandleDosboxRecv(packet: Bytes) returns (outcome: Outcome)
    ensures outcome == Receive(packet)
  {
    if |packet| < IPX_HEADER || BigEndian16(packet, 2) != |packet| { return Dropped; }
    if !(packet[28] == 0 && packet[29] == 0 && packet[5] == 2) {
      return Delivered([DeliveryOf(packet)]);
    }
    var inner := packet[IPX_HEADER..];
    hide FirstWalk, Calls, Deliveries;
    var walk := CheckLengths(inner);
    match walk {
      case Rejects => return Dropped;
      case Hangs => return Hung;
      case Leaves => return Astray;
      case Accepts =>
        var delivered, misread := DeliverInner(inner);
        return if misread then Misread(delivered) else Delivered(delivered);
    }
  }

  // ----- when the checking loop ends, and how -----

  /** The loop goes from inner packet p to q. */
  predicate StepsTo(payload: Bytes, p: nat, q: nat) {
    p + 4 <= |payload| && 0 < LengthAt(payload, p) <= |payload| && q == p + LengthAt(payload, p)
  }

  /** The offsets the loop visits from p on. */
  ghost predicate Path(payload: Bytes, p: nat, ps: seq<nat>) {
    ps != [] && ps[0] == p && forall i :: 0 <= i < |ps| - 1 ==> StepsTo(payload, ps[i], ps[i + 1])
  }

  /** What the loop makes of offset p without going further, if it does not. */
  ghost predicate EndsAt(payload: Bytes, p: nat, walk: Walk) {
    match walk
    case Accepts => p >= |payload|
    case Leaves => p < |payload| < p + 4
    case Rejects => p + 4 <= |payload| && LengthAt(payload, p) > |payload|
    case Hangs => p + 4 <= |payload| && LengthAt(payload, p) == 0
  }

  lemma {:induction false} PathDecides(payload: Bytes, p: nat, ps: seq<nat>, walk: Walk)
    requires |payload| >= IPX_HEADER && Path(payload, p, ps) && EndsAt(payload, ps[|ps| - 1], walk)
    ensures FirstWalk(payload, p) == walk
    decreases |ps|
  {
    if |ps| > 1 {
      assert StepsTo(payload, ps[0], ps[1]);
      assert forall i :: 0 <= i < |ps| - 2 ==> StepsTo(payload, ps[1..][i], ps[1..][i + 1]);
      PathDecides(payload, ps[1], ps[1..], walk);
    }
  }

  lemma {:induction false} PathExists(payload: Bytes, p: nat) returns (ps: seq<nat>)
    requires |payload| >= IPX_HEADER
    ensures Path(payload, p, ps) && EndsAt(payload, ps[|ps| - 1], FirstWalk(payload, p))
    decreases |payload| - p
  {
    if p + 4 <= |payload| && 0 < LengthAt(payload, p) <= |payload| {
      var rest := PathExists(payload, p + LengthAt(payload, p));
      ps := [p] + rest;
      forall i | 0 <= i < |ps| - 1 ensures StepsTo(payload, ps[i], ps[i + 1]) {
        if i > 0 { assert StepsTo(payload, rest[i - 1], rest[i]); }
      }
    } else {
      ps := [p];
    }
  }

  /** The checking loop ends, and accepts, if and only if its steps lead to or past the end of the
      payload; it never ends if and only if they lead to a zero length; and so for the others. */
  lemma WalkEndsIff(payload: Bytes, walk: Walk)
    requires |payload| >= IPX_HEADER
    ensures FirstWalk(payload, 0) == walk
       <==> exists ps :: Path(payload, 0, ps) && EndsAt(payload, ps[|ps| - 1], walk)
  {
    var ps := PathExists(payload, 0);
    forall qs | Path(payload, 0, qs) && EndsAt(payload, qs[|qs| - 1], walk) ensures FirstWalk(payload, 0) == walk {
      PathDecides(payload, 0, qs, walk);
    }
  }

  // ----- when an accepted payload is misread -----

  lemma {:induction false} CallsFollow(payload: Bytes, p: nat, ps: seq<nat>)
    requires |payload| >= IPX_HEADER && Path(payload, p, ps) && ps[|ps| - 1] >= |payload|
    ensures FirstWalk(payload, p) == Accepts && |Calls(payload, p)| == |ps| - 1
    ensures forall i :: 0 <= i < |ps| - 1 ==>
              StepsTo(payload, ps[i], ps[i + 1]) && Calls(payload, p)[i] == DeliverCall(ps[i], SizeT(ps[i + 1] - ps[i] - IPX_HEADER))
    decreases |ps|
  {
    hide SizeT;
    PathDecides(payload, p, ps, Accepts);
    if |ps| > 1 {
      assert StepsTo(payload, ps[0], ps[1]);
      assert forall i :: 0 <= i < |ps| - 2 ==> StepsTo(payload, ps[1..][i], ps[1..][i + 1]);
      CallsFollow(payload, ps[1], ps[1..]);
    }
  }

  lemma InsideIff(payload: Bytes, p: nat, q: nat)
    requires |payload| < 65536 && StepsTo(payload, p, q)
    ensures Inside(payload, DeliverCall(p, SizeT(q - p - IPX_HEADER))) <==> q - p >= IPX_HEADER && q <= |payload|
  {
    hide SizeT;
  }

  /** An accepted payload is misread if and only if, on the way to its end, some inner length is
      shorter than a header, or the last inner packet goes on past the end. */
  lemma MisreadIff(payload: Bytes)
    requires IPX_HEADER <= |payload| < 65536 && FirstWalk(payload, 0) == Accepts
    ensures !AllInside(payload, Calls(payload, 0))
       <==> exists ps :: Path(payload, 0, ps) && ps[|ps| - 1] >= |payload|
                         && (ps[|ps| - 1] > |payload| || exists i :: 0 <= i < |ps| - 1 && ps[i + 1] - ps[i] < IPX_HEADER)
  {
    var ps := PathExists(payload, 0);
    PathMisread(payload, ps);
    forall qs | Path(payload, 0, qs) && qs[|qs| - 1] >= |payload|
      ensures !AllInside(payload, Calls(payload, 0)) <==>
              qs[|qs| - 1] > |payload| || exists i :: 0 <= i < |qs| - 1 && qs[i + 1] - qs[i] < IPX_HEADER
    {
      PathMisread(payload, qs);
    }
  }

  lemma PathMisread(payload: Bytes, ps: seq<nat>)
    requires IPX_HEADER <= |payload| < 65536 && Path(payload, 0, ps) && ps[|ps| - 1] >= |payload|
    ensures FirstWalk(payload, 0) == Accepts
    ensures !AllInside(payload, Calls(payload, 0)) <==>
            ps[|ps| - 1] > |payload| || exists i :: 0 <= i < |ps| - 1 && ps[i + 1] - ps[i] < IPX_HEADER
  {
    hide FirstWalk, Calls, Inside, StepsTo, SizeT;
    CallsFollow(payload, 0, ps);
    var calls := Calls(payload, 0);
    forall i | 0 <= i < |calls|
      ensures Inside(payload, calls[i]) <==> ps[i + 1] - ps[i] >= IPX_HEADER && ps[i + 1] <= |payload|
    {
      InsideIff(payload, ps[i], ps[i + 1]);
    }
    forall j | 0 < j < |ps| - 1 ensures ps[j] <= |payload| {
      StartsInside(payload, ps[j], ps[j + 1]);
    }
    var last := |ps| - 1;
    if ps[last] > |payload| {
      assert last > 0 && !Inside(payload, calls[last - 1]);
    }
    if i :| 0 <= i < last && ps[i + 1] - ps[i] < IPX_HEADER { assert !Inside(payload, calls[i]); }
    if i :| 0 <= i < last && !Inside(payload, calls[i]) {
      if ps[i + 1] > |payload| { assert i + 1 == last; }
    }
  }

  lemma StartsInside(payload: Bytes, p: nat, q: nat)
    requires StepsTo(payload, p, q)
    ensures p <= |payload|
  {}

  /** What that means for a datagram: whether it hangs the receiver, and whether it is misread,
      by the offsets and lengths of what it calls its inner packets. */
  lemma EnvelopeOutcomeIff(packet: Bytes, payload: Bytes)
    requires 2 * IPX_HEADER <= |packet| == BigEndian16(packet, 2) && IsEnvelope(packet) && payload == packet[IPX_HEADER..]
    ensures Receive(packet) == Hung <==> exists ps :: Path(payload, 0, ps) && EndsAt(payload, ps[|ps| - 1], Hangs)
    ensures Receive(packet).Misread?
       <==> exists ps :: Path(payload, 0, ps) && EndsAt(payload, ps[|ps| - 1], Accepts)
                         && (ps[|ps| - 1] > |payload| || exists i :: 0 <= i < |ps| - 1 && ps[i + 1] - ps[i] < IPX_HEADER)
  {
    hide Path, StepsTo, FirstWalk, Calls, Deliveries, AllInside;
    WalkEndsIff(payload, Hangs);
    WalkEndsIff(payload, Accepts);
    if FirstWalk(payload, 0) == Accepts {
      MisreadIff(payload);
      AllDelivered(payload, Calls(payload, 0));
    }
  }

  /** Every datagram: it is dropped if and only if it is shorter than a header, its length field is
      not its length, or it is an envelope whose walk comes to a length above what follows the header
      or that has less than a header there. Any other that is no envelope is delivered as the one
      packet it is. */
  lemma DroppedIff(packet: Bytes)
    ensures Receive(packet) == Dropped
       <==> || |packet| < IPX_HEADER || 256 * packet[2] as int + packet[3] as int != |packet|
            || (packet[28] == 0 && packet[29] == 0 && packet[5] == 2
                && var payload := packet[IPX_HEADER..];
                   (0 < |payload| < IPX_HEADER)
                   || exists ps :: Path(payload, 0, ps) && EndsAt(payload, ps[|ps| - 1], Rejects))
    ensures |packet| >= IPX_HEADER && 256 * packet[2] as int + packet[3] as int == |packet|
            && !(packet[28] == 0 && packet[29] == 0 && packet[5] == 2)
            ==> Receive(packet) == Delivered([Delivery(packet[5], packet[6..18], packet[18..30], packet[30..])])
  {
    hide Path, StepsTo, Calls, Deliveries;
    if |packet| >= IPX_HEADER {
      var payload := packet[IPX_HEADER..];
      if |payload| >= IPX_HEADER { WalkEndsIff(payload, Rejects); } else { ShortWalk(payload); }
    }
  }

  lemma ShortWalk(payload: Bytes)
    requires |payload| < IPX_HEADER
    ensures FirstWalk(payload, 0) == if payload == [] then Accepts else Rejects
    ensures payload == [] ==> !exists ps :: Path(payload, 0, ps) && EndsAt(payload, ps[|ps| - 1], Rejects)
  {}

  // ----- envelopes as coalescing sends them -----

  /** A payload of well-formed packets end to end is accepted, and delivered as just these packets. */
  lemma {:induction false} ConcatDelivered(payload: Bytes, p: nat, packets: seq<Bytes>)
    requires p <= |payload| < 65536 && payload[p..] == Concat(packets)
    requires forall i :: 0 <= i < |packets| ==> WellFormedPacket(packets[i])
    ensures forall i :: 0 <= i < |packets| ==> |packets[i]| >= IPX_HEADER
    ensures FirstWalk(payload, p) == Accepts && |Calls(payload, p)| == |packets|
    ensures Deliveries(payload, Calls(payload, p)) == DeliveriesOf(packets)
    decreases |packets|
  {
    hide FirstWalk, Calls, Deliveries, DeliveryOf, DeliveriesOf, Concat, SizeT;
    if packets == [] {
      AtTheEnd(payload, p);
      assert DeliveriesOf(packets) == [];
    } else {
      var first, rest := packets[0], packets[1..];
      ConcatCons(packets);
      FrontOf(payload, p, first, Concat(rest));
      ConcatDelivered(payload, p + |first|, rest);
      WalkStep(payload, p);
      DeliverStep(payload, p);
      DeliveriesCons(packets);
    }
  }

  lemma AtTheEnd(payload: Bytes, p: nat)
    requires p <= |payload| && payload[p..] == Concat([])
    ensures FirstWalk(payload, p) == Accepts && Calls(payload, p) == [] && Deliveries(payload, Calls(payload, p)) == []
  {
    assert |payload[p..]| == 0;
  }

  lemma WalkStep(payload: Bytes, p: nat)
    requires |payload| >= IPX_HEADER && p + 4 <= |payload| && 0 < LengthAt(payload, p) <= |payload|
    ensures FirstWalk(payload, p) == FirstWalk(payload, p + LengthAt(payload, p))
  {}

  lemma FrontOf(payload: Bytes, p: nat, first: Bytes, rest: Bytes)
    requires p <= |payload| && payload[p..] == first + rest && WellFormedPacket(first)
    ensures p + |first| <= |payload| && LengthAt(payload, p) == |first|
    ensures payload[p..p + |first|] == first && payload[p + |first|..] == rest
  {
    assert payload[p..][..|first|] == first && payload[p..][|first|..] == rest;
    assert payload[p..][2] == payload[p + 2] && payload[p..][3] == payload[p + 3];
  }

  /** The packets of a payload whose every call stays inside. */
  lemma {:induction false} InsideIsConcat(payload: Bytes, p: nat) returns (packets: seq<Bytes>)
    requires p <= |payload| < 65536 && FirstWalk(payload, p) == Accepts && AllInside(payload, Calls(payload, p))
    ensures payload[p..] == Concat(packets)
    ensures forall i :: 0 <= i < |packets| ==> WellFormedPacket(packets[i])
    decreases |payload| - p
  {
    if p == |payload| {
      packets := [];
    } else {
      hide Concat, SizeT;
      var length := LengthAt(payload, p);
      var calls := Calls(payload, p);
      assert Inside(payload, calls[0]);
      assert calls[1..] == Calls(payload, p + length);
      assert forall i :: 0 <= i < |calls| - 1 ==> Inside(payload, calls[1..][i]);
      var rest := InsideIsConcat(payload, p + length);
      packets := [payload[p..p + length]] + rest;
      PutInFront(payload, p, length, rest);
    }
  }

  lemma PutInFront(payload: Bytes, p: nat, length: nat, rest: seq<Bytes>)
    requires p + 4 <= |payload| && length == LengthAt(payload, p) >= IPX_HEADER && p + length <= |payload|
    requires payload[p + length..] == Concat(rest)
    ensures WellFormedPacket(payload[p..p + length])
    ensures payload[p..] == Concat([payload[p..p + length]] + rest)
  {
    var packets := [payload[p..p + length]] + rest;
    ConcatCons(packets);
    assert packets[1..] == rest;
    assert payload[p..] == payload[p..p + length] + payload[p + length..];
  }

  /** The receiver takes a payload apart without reading past it if and only if it is a sequence
      of well-formed packets end to end, and then delivers exactly those. */
  lemma FaithfulIffPackets(payload: Bytes)
    requires |payload| < 65536
    ensures FirstWalk(payload, 0) == Accepts && AllInside(payload, Calls(payload, 0))
       <==> exists packets :: (forall i :: 0 <= i < |packets| ==> WellFormedPacket(packets[i])) && Concat(packets) == payload
  {
    assert payload[0..] == payload;
    if FirstWalk(payload, 0) == Accepts && AllInside(payload, Calls(payload, 0)) {
      var packets := InsideIsConcat(payload, 0);
    }
    forall packets: seq<Bytes> | (forall i :: 0 <= i < |packets| ==> WellFormedPacket(packets[i])) && Concat(packets) == payload
      ensures FirstWalk(payload, 0) == Accepts && AllInside(payload, Calls(payload, 0))
    {
      ConcatDelivered(payload, 0, packets);
      AllDelivered(payload, Calls(payload, 0));
    }
  }

  // ----- payloads that are not -----

  /** 64 bytes with inner lengths 30 and 64: accepted, although the second packet goes on for 30
      bytes after the end. */
  lemma OverrunAccepted(payload: Bytes)
    requires payload == seq(64, i => if i == 3 then 30 else if i == 33 then 64 else 0)
    ensures FirstWalk(payload, 0) == Accepts
    ensures Calls(payload, 0) == [DeliverCall(0, 0), DeliverCall(30, 34)] && !Inside(payload, DeliverCall(30, 34))
  {
    assert LengthAt(payload, 0) == 30 && LengthAt(payload, 30) == 64;
    assert Calls(payload, 94) == [];
    assert Calls(payload, 30) == [DeliverCall(30, 34)] + Calls(payload, 94);
    assert Calls(payload, 0) == [DeliverCall(0, 0)] + Calls(payload, 30);
  }

  /** 31 bytes with inner lengths 20 and 11: accepted, although the first data size wraps round
      to almost 4 GiB. */
  lemma UnderflowAccepted(payload: Bytes)
    requires payload == seq(31, i => if i == 3 then 20 else if i == 23 then 11 else 0)
    ensures FirstWalk(payload, 0) == Accepts
    ensures Calls(payload, 0) == [DeliverCall(0, 0xFFFF_FFF6), DeliverCall(20, 0xFFFF_FFED)]
  {
    assert LengthAt(payload, 0) == 20 && LengthAt(payload, 20) == 11;
    assert Calls(payload, 31) == [];
    assert Calls(payload, 20) == [DeliverCall(20, 0xFFFF_FFED)] + Calls(payload, 31);
    assert Calls(payload, 0) == [DeliverCall(0, 0xFFFF_FFF6)] + Calls(payload, 20);
  }

  /** 30 zero bytes: the loop stays at the first of them. */
  lemma ZeroLengthHangs(payload: Bytes)
    requires payload == seq(30, _ => 0)
    ensures FirstWalk(payload, 0) == Hangs
  {}

  /** The first of them in an envelope: one packet is delivered, and then a second one of which
      only 4 of its 34 bytes of data are in the datagram. */
  lemma OverrunMisread(key: Key, header: Bytes, payload: Bytes)
    requires EnvelopeHeader(key, header)
    requires payload == seq(64, i => if i == 3 then 30 else if i == 33 then 64 else 0)
    ensures Receive(WithLength(header, 94) + payload) == Misread([DeliveryOf(payload[..30])])
  {
    hide FirstWalk, Calls, DeliveryOf, WithLength;
    var h := WithLength(header, 94);
    var packet := h + payload;
    assert packet[2] == h[2] && packet[3] == h[3] && packet[IPX_HEADER..] == payload;
    OverrunAccepted(payload);
    var calls := Calls(payload, 0);
    assert calls[1..] == [DeliverCall(30, 34)] && payload[0..30] == payload[..30];
    assert Deliveries(payload, calls[1..]) == [];
  }
}
