/** deliver_packet(): which of this machine's emulated sockets a packet is relayed to. */
module LocalDelivery {
  import opened Ipx
  import opened Options
  import opened UdpPath

  /** What deliver_packet() looks at in an ipx_socket; the remote address is that of a connected
      socket, the filter that of a socket with packet type filtering enabled. */
  datatype Socket = Socket(spx: bool, bound: bool, recv: bool, filter: Option<Byte>, addr: Address,
                           recvBcast: bool, broadcast: bool, remote: Option<Address>, port: nat)

  datatype Relay = Relay(port: nat, packet: Bytes)

  const BCAST_NET: Bytes := [0xFF, 0xFF, 0xFF, 0xFF]
  const BCAST_NODE: Bytes := [0xFF, 0xFF, 0xFF, 0xFF, 0xFF, 0xFF]

  predicate IsBroadcast(dest: Address) {
    dest[..4] == BCAST_NET || dest[4..10] == BCAST_NODE
  }

  /** An IPX socket that is open for reception hears what is sent to its own socket number at its
      own or the broadcast network and node, of the type it asked for, from the peer it is
      connected to; a broadcast only if it has not declined them and, where the Windows 95 bug is
      emulated, has enabled them. */
  predicate Hears(s: Socket, h: Header, w95Bug: bool) {
    && !s.spx && s.bound && s.recv
    && s.filter in {None, Some(h.ptype)}
    && h.dest[..4] in {s.addr[..4], BCAST_NET}
    && h.dest[4..10] in {s.addr[4..10], BCAST_NODE}
    && h.dest[10..] == s.addr[10..]
    && (IsBroadcast(h.dest) ==> s.recvBcast && (w95Bug ==> s.broadcast))
    && s.remote in {None, Some(h.src)}
  }

  /** The relays to the sockets that hear the packet, in table order; able[i] says whether the
      i-th copy could be allocated and sent. */
  function Relays(sockets: seq<Socket>, h: Header, data: Bytes, w95Bug: bool, able: seq<bool>): seq<Relay>
    requires |able| == |sockets| && |data| < 65536
  {
    if sockets == [] then []
    else
      var last := |sockets| - 1;
      Relays(sockets[..last], h, data, w95Bug, able[..last])
      + if Hears(sockets[last], h, w95Bug) && able[last] then [Relay(sockets[last].port, RelayedPacket(h, data))] else []
  }

  method DeliverPacket(sockets: seq<Socket>, h: Header, data: Bytes, w95Bug: bool, able: seq<bool>)
    returns (relays: seq<Relay>)
    requires |able| == |sockets| && |data| < 65536
    ensures relays == Relays(sockets, h, data, w95Bug, able)
  {
    relays := [];
    var srcNet, srcNode, srcSocket := h.src[..4], h.src[4..10], h.src[10..];
    var destNet, destNode, destSocket := h.dest[..4], h.dest[4..10], h.dest[10..];
    assert h.src == srcNet + srcNode + srcSocket;
    for i := 0 to |sockets|
      invariant relays == Relays(sockets[..i], h, data, w95Bug, able[..i])
    {
      var sock := sockets[i];
      assert sockets[..i + 1][..i] == sockets[..i] && able[..i + 1][..i] == able[..i];
      if sock.spx { continue; }
      if !sock.bound { continue; }
      if !sock.recv { continue; }
      if sock.filter.Some? && sock.filter.value != h.ptype { continue; }
      if (destNet != sock.addr[..4] && destNet != BCAST_NET)
         || (destNode != sock.addr[4..10] && destNode != BCAST_NODE)
         || destSocket != sock.addr[10..] { continue; }
      if (destNet == BCAST_NET || destNode == BCAST_NODE) && !sock.recvBcast { continue; }
      if (destNet == BCAST_NET || destNode == BCAST_NODE) && w95Bug && !sock.broadcast { continue; }
      if sock.remote.Some? {
        var remote := sock.remote.value;
        assert remote == remote[..4] + remote[4..10] + remote[10..];
        if srcNet != remote[..4] || srcNode != remote[4..10] || srcSocket != remote[10..] { continue; }
      }
      if !able[i] { continue; }
      relays := relays + [Relay(sock.port, RelayedPacket(h, data))];
    }
    assert sockets[..|sockets|] == sockets && able[..|sockets|] == able;
  }

  /** Exactly the sockets that hear a packet are sent it. */
  lemma {:induction false} RelayedIff(sockets: seq<Socket>, h: Header, data: Bytes, w95Bug: bool, able: seq<bool>, r: Relay)
    requires |able| == |sockets| && |data| < 65536
    ensures r in Relays(sockets, h, data, w95Bug, able)
       <==> r.packet == RelayedPacket(h, data)
            && exists i :: 0 <= i < |sockets| && Hears(sockets[i], h, w95Bug) && able[i] && sockets[i].port == r.port
  {
    if sockets != [] {
      var last := |sockets| - 1;
      var prefix := sockets[..last];
      RelayedIff(prefix, h, data, w95Bug, able[..last], r);
      assert forall i :: 0 <= i < last ==> prefix[i] == sockets[i] && able[..last][i] == able[i];
    }
  }

  ghost predicate Increasing(s: seq<nat>) {
    forall i, j :: 0 <= i < j < |s| ==> s[i] < s[j]
  }

  /** Each of them once, in table order: the relays are those of an increasing list of the sockets
      that hear the packet and could be served, one relay for each. */
  lemma {:induction false} RelaysInTableOrder(sockets: seq<Socket>, h: Header, data: Bytes, w95Bug: bool, able: seq<bool>)
    returns (who: seq<nat>)
    requires |able| == |sockets| && |data| < 65536
    ensures Increasing(who)
    ensures forall i: nat :: i in who <==> i < |sockets| && Hears(sockets[i], h, w95Bug) && able[i]
    ensures var relays := Relays(sockets, h, data, w95Bug, able);
            && |relays| == |who|
            && forall k :: 0 <= k < |who| ==>
                 who[k] < |sockets| && relays[k] == Relay(sockets[who[k]].port, RelayedPacket(h, data))
  {
    hide Hears, RelayedPacket;
    who := [];
    if sockets != [] {
      var last := |sockets| - 1;
      who := RelaysInTableOrder(sockets[..last], h, data, w95Bug, able[..last]);
      if Hears(sockets[last], h, w95Bug) && able[last] { who := who + [last]; }
    }
  }

  /** So there are as many relays as sockets that hear the packet and could be served. */
  lemma RelayForEachListener(sockets: seq<Socket>, h: Header, data: Bytes, w95Bug: bool, able: seq<bool>)
    requires |able| == |sockets| && |data| < 65536
    ensures |Relays(sockets, h, data, w95Bug, able)|
         == |set i: nat | 0 <= i < |sockets| && Hears(sockets[i], h, w95Bug) && able[i]|
  {
    hide Hears, Relays;
    var who := RelaysInTableOrder(sockets, h, data, w95Bug, able);
    var listeners := set i: nat | 0 <= i < |sockets| && Hears(sockets[i], h, w95Bug) && able[i];
    forall i: nat ensures i in listeners <==> i in who {}
    CountIncreasing(who, listeners);
  }

  lemma {:induction false} CountIncreasing(who: seq<nat>, listeners: set<nat>)
    requires Increasing(who) && forall i: nat :: i in listeners <==> i in who
    ensures |listeners| == |who|
  {
    if who == [] {
      assert listeners == {};
    } else {
      var last := |who| - 1;
      forall i: nat ensures i in listeners - {who[last]} <==> i in who[..last] {
        if i in who[..last] {
          var k :| 0 <= k < last && who[k] == i;
        }
      }
      CountIncreasing(who[..last], listeners - {who[last]});
    }
  }

  /** What decides whether a socket hears a packet, one thing at a time. */
  lemma EachOptionDecides(s: Socket, h: Header, w95Bug: bool)
    requires Hears(s, h, w95Bug)
    ensures !Hears(s.(spx := true), h, w95Bug)
    ensures !Hears(s.(bound := false), h, w95Bug)
    ensures !Hears(s.(recv := false), h, w95Bug)
    ensures forall t :: Hears(s.(filter := t), h, w95Bug) <==> t in {None, Some(h.ptype)}
    ensures forall r :: Hears(s.(remote := r), h, w95Bug) <==> r in {None, Some(h.src)}
    ensures var toAll := h.dest[..4] == seq(4, _ => 0xFF) || h.dest[4..10] == seq(6, _ => 0xFF);
            && (Hears(s.(recvBcast := false), h, w95Bug) <==> !toAll)
            && (Hears(s.(recvBcast := true, broadcast := false), h, w95Bug) <==> !(w95Bug && toAll))
    ensures forall a: Address :: Hears(s.(addr := a), h, w95Bug) <==>
              && (h.dest[..4] == seq(4, _ => 0xFF) || a[..4] == h.dest[..4])
              && (h.dest[4..10] == seq(6, _ => 0xFF) || a[4..10] == h.dest[4..10])
              && a[10..] == h.dest[10..]
  {
    assert seq(4, _ => 0xFF) == BCAST_NET && seq(6, _ => 0xFF) == BCAST_NODE;
  }

  /** No two bound sockets have the same address. */
  ghost predicate OwnAddresses(sockets: seq<Socket>) {
    forall i, j :: 0 <= i < j < |sockets| && sockets[i].bound && sockets[j].bound ==> sockets[i].addr != sockets[j].addr
  }

  /** Without shared addresses, a packet to a single node goes to at most one socket. */
  lemma {:induction false} UnicastReachesOne(sockets: seq<Socket>, h: Header, data: Bytes, w95Bug: bool, able: seq<bool>)
    requires |able| == |sockets| && |data| < 65536
    requires OwnAddresses(sockets) && !IsBroadcast(h.dest)
    ensures |Relays(sockets, h, data, w95Bug, able)| <= 1
  {
    if sockets != [] {
      var last := |sockets| - 1;
      var prefix := sockets[..last];
      UnicastReachesOne(prefix, h, data, w95Bug, able[..last]);
      if Hears(sockets[last], h, w95Bug) && Relays(prefix, h, data, w95Bug, able[..last]) != [] {
        var r := Relays(prefix, h, data, w95Bug, able[..last])[0];
        RelayedIff(prefix, h, data, w95Bug, able[..last], r);
        var i :| 0 <= i < last && Hears(prefix[i], h, w95Bug);
        HearsOwnAddress(sockets[i], h, w95Bug);
        HearsOwnAddress(sockets[last], h, w95Bug);
        assert false;
      }
    }
  }

  lemma HearsOwnAddress(s: Socket, h: Header, w95Bug: bool)
    requires Hears(s, h, w95Bug) && !IsBroadcast(h.dest)
    ensures h.dest == s.addr
  {}

  /** From sendto() on one machine to the receive queues of another: a payload of up to 8192
      bytes from a bound socket is relayed, in a datagram recv_pump() accepts and with its type,
      addresses and data intact, to exactly the sockets that hear it. */
  lemma SentReachesListeners(h: Header, data: Bytes, sockets: seq<Socket>, w95Bug: bool, able: seq<bool>)
    requires |data| <= MAX_DATA_SIZE && (h.src[10] != 0 || h.src[11] != 0)
    requires |able| == |sockets|
    ensures HandleUdp(SentPacket(h, data)) == Passed(h, data)
    ensures forall r :: r in Relays(sockets, h, data, w95Bug, able) ==>
              Acceptable(r.packet) && HeaderOf(r.packet) == h && r.packet[HEADER..] == data
    ensures forall i :: 0 <= i < |sockets| && able[i] ==>
              (Hears(sockets[i], h, w95Bug) ==>
                 Relay(sockets[i].port, RelayedPacket(h, data)) in Relays(sockets, h, data, w95Bug, able))
    ensures forall r :: r in Relays(sockets, h, data, w95Bug, able) ==>
              exists i :: 0 <= i < |sockets| && Hears(sockets[i], h, w95Bug) && sockets[i].port == r.port
  {
    hide Hears, Relays, RelayedPacket, HandleUdp, SentPacket;
    PayloadSurvives(h, data);
    forall r | r in Relays(sockets, h, data, w95Bug, able)
      ensures r.packet == RelayedPacket(h, data)
      ensures exists i :: 0 <= i < |sockets| && Hears(sockets[i], h, w95Bug) && sockets[i].port == r.port
    {
      RelayedIff(sockets, h, data, w95Bug, able, r);
    }
    forall i | 0 <= i < |sockets| && able[i] && Hears(sockets[i], h, w95Bug)
      ensures Relay(sockets[i].port, RelayedPacket(h, data)) in Relays(sockets, h, data, w95Bug, able)
    {
      RelayedIff(sockets, h, data, w95Bug, able, Relay(sockets[i].port, RelayedPacket(h, data)));
    }
  }
}
