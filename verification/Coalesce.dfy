/** Packet coalescing towards a DOSBox server: per-destination send history, payload queues, the
    pending list and what is handed to the UDP socket. */
module Coalesce {
  import opened Ipx
  import opened Sequences

  type Net = b: Bytes | |b| == 4 witness [0, 0, 0, 0]
  type Node = b: Bytes | |b| == 6 witness [0, 0, 0, 0, 0, 0]
  datatype Key = Key(netnum: Net, nodenum: Node, socket: nat)

  const TRACK_COUNT := 512
  const START_THRESH := 2500000   // 2.5 s
  const STOP_THRESH := 10000000   // 10 s
  const MAX_DELAY := 20000        // 20 ms
  const MAX_SIZE := 1384
  const IPX_HEADER := 30          // sizeof(novell_ipx_packet)

  /** A destination; its payload buffer holds the envelope header followed by the queued packets,
      or nothing when no packet is queued. */
  datatype Dest = Dest(active: bool, stamps: seq<nat>, payloadTime: nat, header: Bytes, queue: seq<Bytes>)

  /** What is handed to r_sendto(): one packet as it is, or an envelope of queued packets. */
  datatype Datagram =
    | Direct(key: Key, packet: Bytes)
    | Envelope(key: Key, header: Bytes, packets: seq<Bytes>)

  datatype State = State(table: map<Key, Dest>, pending: seq<Key>, wire: seq<Datagram>)

  const EMPTY := State(map[], [], [])
  const FRESH := Dest(false, NoStamps(), 0, [], [])

  function NoStamps(): (z: seq<nat>)
    ensures |z| == TRACK_COUNT && forall i :: 0 <= i < TRACK_COUNT ==> z[i] == 0
  {
    seq(TRACK_COUNT, _ => 0 as nat)
  }

  /** The header coalesce_add_data() builds: type IPX_MAGIC_COALESCED, both sockets zero. The
      length field is filled in when the envelope is flushed. */
  function HeaderFor(key: Key, localNet: Net, localNode: Node): (h: Bytes)
    ensures EnvelopeHeader(key, h)
  {
    assert ([0xFF, 0xFF, 0, 0, 0, 2] + key.netnum + key.nodenum + [0, 0] + localNet + localNode + [0, 0])[6..16]
        == key.netnum + key.nodenum;
    [0xFF, 0xFF, 0, 0, 0, 2] + key.netnum + key.nodenum + [0, 0] + localNet + localNode + [0, 0]
  }

  /** A header that makes the peer at key's net and node take what follows for an envelope. */
  predicate EnvelopeHeader(key: Key, h: Bytes) {
    |h| == IPX_HEADER && h[5] == 2 && h[28] == 0 && h[29] == 0 && h[6..16] == key.netnum + key.nodenum
  }

  function TotalLen(packets: seq<Bytes>): nat {
    if packets == [] then 0 else TotalLen(packets[..|packets| - 1]) + |packets[|packets| - 1]|
  }

  /** payload_used */
  function Used(d: Dest): nat {
    if d.queue == [] then 0 else IPX_HEADER + TotalLen(d.queue)
  }

  /** coalesce_register_send: the history after a send, */
  function Registered(d: Dest, now: nat): Dest
    requires |d.stamps| == TRACK_COUNT
  {
    d.(stamps := d.stamps[1..] + [now])
  }

  /** and its verdict. */
  predicate Verdict(d: Dest, now: nat)
    requires |d.stamps| == TRACK_COUNT
  {
    d.stamps[0] + START_THRESH >= now || (d.active && d.stamps[0] + STOP_THRESH >= now)
  }

  predicate Fits(d: Dest, size: nat) {
    (if d.queue == [] then IPX_HEADER else Used(d)) + size <= MAX_SIZE
  }

  /** coalesce_flush */
  function Flush(s: State, k: Key): State
    requires k in s.table && s.table[k].queue != []
  {
    var d := s.table[k];
    State(s.table[k := d.(queue := [])], Remove(s.pending, k), s.wire + [Envelope(k, d.header, d.queue)])
  }

  /** coalesce_add_data when it returns true: the first packet starts a new envelope. */
  function AppendedDest(d: Dest, packet: Bytes, now: nat, header: Bytes): Dest {
    if d.queue == [] then d.(payloadTime := now, header := header, queue := [packet])
    else d.(queue := d.queue + [packet])
  }

  function Append(s: State, k: Key, packet: Bytes, now: nat, header: Bytes): State
    requires k in s.table
  {
    s.(table := s.table[k := AppendedDest(s.table[k], packet, now, header)],
       pending := if s.table[k].queue == [] then s.pending + [k] else s.pending)
  }

  /** A payload that has waited its 20 ms. */
  predicate Overdue(d: Dest, now: nat) {
    d.queue != [] && d.payloadTime + MAX_DELAY <= now
  }

  function FlushIfOverdue(s: State, k: Key, now: nat): State
    requires k in s.table
  {
    if Overdue(s.table[k], now) then Flush(s, k) else s
  }

  /** A destination after its send has been registered and its state switched. */
  function NotedDest(d: Dest, now: nat): (r: Dest)
    requires |d.stamps| == TRACK_COUNT
    ensures |r.stamps| == TRACK_COUNT
  {
    Registered(d, now).(active := Verdict(Registered(d, now), now))
  }

  function Noted(s: State, k: Key, now: nat): (d: Dest)
    requires Shaped(s)
    ensures |d.stamps| == TRACK_COUNT
  {
    NotedDest(if k in s.table then s.table[k] else FRESH, now)
  }

  ghost predicate Shaped(s: State) {
    forall k :: k in s.table ==> |s.table[k].stamps| == TRACK_COUNT
  }

  /** A small packet that does not fit flushes what is queued before it. */
  predicate MakesRoom(d: Dest, size: nat) {
    d.active && Used(d) + size > MAX_SIZE && size < MAX_SIZE / 2
  }

  /** The assertion in coalesce_flush() holds where a packet makes room for itself. */
  lemma MakesRoomHasPayload(d: Dest, size: nat)
    requires MakesRoom(d, size)
    ensures d.queue != []
  {}

  function RoomMade(s: State, k: Key, size: nat): State
    requires k in s.table
  {
    if MakesRoom(s.table[k], size) then MakesRoomHasPayload(s.table[k], size); Flush(s, k) else s
  }

  /** Whether this send queues its packet. */
  predicate Queues(s: State, k: Key, size: nat, now: nat)
    requires Shaped(s)
  {
    var s1 := s.(table := s.table[k := Noted(s, k, now)]);
    var s2 := RoomMade(s1, k, size);
    s2.table[k].active && Fits(s2.table[k], size)
  }

  /** coalesce_send of a tracked destination: what the history, the payloads and the wire become. */
  function SendTracked(s: State, k: Key, packet: Bytes, now: nat, header: Bytes): State
    requires Shaped(s)
  {
    var s1 := s.(table := s.table[k := Noted(s, k, now)]);
    var s2 := RoomMade(s1, k, |packet|);
    if Queues(s, k, |packet|, now) then FlushIfOverdue(Append(s2, k, packet, now, header), k, now)
    else
      var s4 := FlushIfOverdue(s2, k, now);
      s4.(wire := s4.wire + [Direct(k, packet)])
  }

  /** coalesce_send; a destination is not tracked while coalescing is disabled or its node could
      not be allocated. */
  function Send(s: State, k: Key, packet: Bytes, now: nat, header: Bytes, tracked: bool): State
    requires Shaped(s)
  {
    if tracked then SendTracked(s, k, packet, now, header)
    else s.(wire := s.wire + [Direct(k, packet)])
  }

  /** The pending list and the payloads describe the same destinations. */
  ghost predicate Linked(s: State) {
    && (forall i, j :: 0 <= i < j < |s.pending| ==> s.pending[i] != s.pending[j])
    && (forall i :: 0 <= i < |s.pending| ==> s.pending[i] in s.table && s.table[s.pending[i]].queue != [])
    && (forall k :: k in s.table && s.table[k].queue != [] ==> k in s.pending)
  }

  /** coalesce_flush_waiting */
  function FlushWaiting(s: State, now: nat): State
    requires Linked(s)
    decreases |s.pending|
  {
    if s.pending != [] && Overdue(s.table[s.pending[0]], now) then
      FlushKeepsLinked(s, s.pending[0]);
      FlushWaiting(Flush(s, s.pending[0]), now)
    else s
  }

  /** The first loop of coalesce_cleanup */
  function FlushAll(s: State): State
    requires Linked(s)
    decreases |s.pending|
  {
    if s.pending != [] then
      FlushKeepsLinked(s, s.pending[0]);
      FlushAll(Flush(s, s.pending[0]))
    else s
  }

  /** coalesce_cleanup */
  function Cleanup(s: State): State
    requires Linked(s)
  {
    FlushAll(s).(table := map[])
  }

  lemma {:induction false} RemoveOne(s: seq<Key>, k: Key)
    requires k in s && forall i, j :: 0 <= i < j < |s| ==> s[i] != s[j]
    ensures |Remove(s, k)| == |s| - 1
    ensures forall x :: x in Remove(s, k) <==> x in s && x != k
    ensures forall i, j :: 0 <= i < j < |Remove(s, k)| ==> Remove(s, k)[i] != Remove(s, k)[j]
  {
    assert s == [s[0]] + s[1..];
    if s[0] != k {
      RemoveOne(s[1..], k);
      var r := Remove(s[1..], k);
      forall j | 0 <= j < |r| ensures r[j] != s[0] { assert r[j] in r; }
    }
  }

  /** Flushing unlinks exactly the flushed destination. */
  lemma FlushKeepsLinked(s: State, k: Key)
    requires Linked(s) && k in s.table && s.table[k].queue != []
    ensures Linked(Flush(s, k)) && |Flush(s, k).pending| == |s.pending| - 1
  {
    RemoveOne(s.pending, k);
    var r := Remove(s.pending, k);
    forall i | 0 <= i < |r| ensures r[i] in s.pending && r[i] != k { assert r[i] in r; }
  }
}
