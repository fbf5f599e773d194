/** The coalescer as coalesce.c keeps it: destination nodes with fixed buffers that are updated in
    place, a table of them and the pending list. Each method computes the step Coalesce specifies. */
module Coalescers {
  import opened Ipx
  import opened Sequences
  import opened Coalesce
  import opened CoalesceProofs
  import opened Envelopes

  /** struct coalesce_dest */
  class CoalesceDest {
    const dest: Key
    var active: bool
    const sendTimestamps: array<nat>
    var payloadTimestamp: nat
    const payload: array<Byte>
    var payloadUsed: nat
    /** The header and the packets the payload buffer holds. */
    ghost var header: Bytes
    ghost var queue: seq<Bytes>

    ghost function View(): Dest
      reads this, sendTimestamps
    {
      Dest(active, sendTimestamps[..], payloadTimestamp, header, queue)
    }

    ghost predicate Valid()
      reads this, sendTimestamps, payload
    {
      && sendTimestamps.Length == TRACK_COUNT && payload.Length == MAX_SIZE
      && payloadUsed == Used(View()) <= MAX_SIZE
      && (queue != [] ==> EnvelopeHeader(dest, header) && payload[..payloadUsed] == header + Concat(queue))
    }

    constructor (dest: Key)
      ensures Valid() && View() == FRESH && this.dest == dest
      ensures fresh(sendTimestamps) && fresh(payload)
    {
      this.dest := dest;
      active, payloadTimestamp, payloadUsed := false, 0, 0;
      sendTimestamps := new nat[TRACK_COUNT](_ => 0);
      payload := new Byte[MAX_SIZE](_ => 0);
      header, queue := [], [];
      new;
      assert sendTimestamps[..] == NoStamps();
    }

    /** coalesce_register_send: memmove, store, verdict. */
    method RegisterSend(timestamp: nat) returns (shouldCoalesce: bool)
      requires Valid()
      modifies sendTimestamps
      ensures Valid() && View() == Registered(old(View()), timestamp)
      ensures shouldCoalesce == Verdict(View(), timestamp)
    {
      for i := 0 to TRACK_COUNT - 1
        invariant forall j :: 0 <= j < i ==> sendTimestamps[j] == old(sendTimestamps[j + 1])
        invariant forall j :: i <= j < TRACK_COUNT ==> sendTimestamps[j] == old(sendTimestamps[j])
      {
        sendTimestamps[i] := sendTimestamps[i + 1];
      }
      sendTimestamps[TRACK_COUNT - 1] := timestamp;
      assert sendTimestamps[..] == old(sendTimestamps[..])[1..] + [timestamp];
      if sendTimestamps[0] + START_THRESH >= timestamp {
        return true;
      } else if active && sendTimestamps[0] + STOP_THRESH < timestamp {
        return false;
      } else {
        return active;
      }
    }

    /** Registers a send and switches the destination's state, as coalesce_send() begins. */
    method Note(now: nat) returns (shouldCoalesce: bool)
      requires Valid()
      modifies this, sendTimestamps
      ensures Valid() && View() == NotedDest(old(View()), now) && shouldCoalesce == active
      ensures payloadUsed == old(payloadUsed)
    {
      hide EnvelopeHeader, Concat, TotalLen;
      shouldCoalesce := RegisterSend(now);
      if shouldCoalesce && !active {
        active := true;
      } else if !shouldCoalesce && active {
        active := false;
      }
    }

    /** memcpy to the payload buffer. */
    method Store(at: nat, data: Bytes)
      requires at + |data| <= payload.Length
      modifies payload
      ensures payload[..at] == old(payload[..at])
      ensures payload[at..at + |data|] == data
    {
      for i := 0 to |data|
        invariant payload[..at] == old(payload[..at])
        invariant payload[at..at + i] == data[..i]
      {
        payload[at + i] := data[i];
      }
    }

    /** The payload buffer holds a header and the queued packets, of which there may be none yet. */
    ghost predicate Holding()
      reads this, sendTimestamps, payload
    {
      && sendTimestamps.Length == TRACK_COUNT && payload.Length == MAX_SIZE
      && payloadUsed == IPX_HEADER + TotalLen(queue) <= MAX_SIZE
      && EnvelopeHeader(dest, header) && payload[..payloadUsed] == header + Concat(queue)
    }

    /** The first half of coalesce_add_data(): the header of a new envelope. */
    method StartEnvelope(newHeader: Bytes, now: nat)
      requires Valid() && payloadUsed == 0 && EnvelopeHeader(dest, newHeader)
      modifies this, payload
      ensures Holding() && queue == old(queue) == [] && header == newHeader
      ensures active == old(active) && payloadTimestamp == now
    {
      payloadTimestamp := now;
      header := newHeader;
      Store(0, newHeader);
      payloadUsed := IPX_HEADER;
      assert queue == [];
      assert payload[..payloadUsed] == payload[0..payloadUsed];
      assert newHeader + Concat(queue) == newHeader;
    }

    /** The second half: the data behind what is there. */
    method AddData(data: Bytes)
      requires Holding() && payloadUsed + |data| <= MAX_SIZE
      modifies `payloadUsed, `queue, payload
      ensures Valid() && queue == old(queue) + [data]
    {
      hide Concat, TotalLen, EnvelopeHeader;
      TotalLenSnoc(queue, data);
      ConcatSnoc(queue, data);
      Store(payloadUsed, data);
      assert payload[..payloadUsed + |data|] == payload[..payloadUsed] + payload[payloadUsed..payloadUsed + |data|];
      payloadUsed := payloadUsed + |data|;
      queue := queue + [data];
    }

    /** The first packet of an envelope, */
    method PutFirst(data: Bytes, newHeader: Bytes, now: nat)
      requires Valid() && payloadUsed == 0 && IPX_HEADER + |data| <= MAX_SIZE && EnvelopeHeader(dest, newHeader)
      modifies this, payload
      ensures Valid() && View() == old(View()).(payloadTime := now, header := newHeader, queue := [data])
    {
      hide Concat, TotalLen, EnvelopeHeader, Used;
      StartEnvelope(newHeader, now);
      HeaderOnly();
      AddData(data);
      assert [] + [data] == [data];
    }

    /** and a later one. */
    method PutNext(data: Bytes)
      requires Valid() && payloadUsed > 0 && payloadUsed + |data| <= MAX_SIZE
      modifies this, payload
      ensures Valid() && View() == old(View()).(queue := old(queue) + [data])
    {
      hide Concat, TotalLen, EnvelopeHeader, Used;
      NotEmptyHolds();
      AddData(data);
    }

    /** coalesce_add_data() on a payload the data fits. */
    method Put(data: Bytes, newHeader: Bytes, now: nat)
      requires Valid() && Fits(View(), |data|) && EnvelopeHeader(dest, newHeader)
      modifies this, payload
      ensures Valid() && View() == AppendedDest(old(View()), data, now, newHeader)
    {
      hide Valid, EnvelopeHeader, TotalLen, Used;
      UsedIsPayload();
      if payloadUsed == 0 {
        PutFirst(data, newHeader, now);
      } else {
        PutNext(data);
      }
    }

    lemma UsedIsPayload()
      requires Valid()
      ensures payloadUsed == Used(View()) && (payloadUsed == 0 <==> queue == [])
    {}

    lemma HeaderOnly()
      requires Holding() && queue == []
      ensures payloadUsed == IPX_HEADER
    {}

    lemma NotEmptyHolds()
      requires Valid() && payloadUsed > 0
      ensures Holding()
    {}

    /** The part of coalesce_flush() that seals and empties the payload. */
    method TakePayload() returns (sent: Bytes)
      requires Valid() && payloadUsed > 0
      modifies this, payload
      ensures Valid() && View() == old(View()).(queue := [])
      ensures sent == DatagramBytes(Envelope(dest, old(header), old(queue)))
    {
      hide Concat, TotalLen;
      ConcatLength(queue);
      ghost var n, before := payloadUsed, payload[..payloadUsed];
      payload[2], payload[3] := payloadUsed / 256, payloadUsed % 256;
      sent := payload[..payloadUsed];
      SealedBytes(header, Concat(queue), n, before, sent);
      payloadUsed := 0;
      queue := [];
    }
  }

  /** coalesce_table, coalesce_pending and the UDP socket. */
  class Coalescer {
    var table: map<Key, CoalesceDest>
    var pending: seq<CoalesceDest>
    /** The datagrams handed to r_sendto(), and what each of them is. */
    var wire: seq<Bytes>
    ghost var log: seq<Datagram>
    /** The nodes of the table. */
    ghost var nodes: set<CoalesceDest>
    /** Their buffers. */
    ghost var payloads: set<array<Byte>>
    ghost var histories: set<array<nat>>

    /** Every key has its own node, and every node its own buffers. */
    ghost predicate Separate()
      reads `table, `nodes, `payloads, `histories
    {
      && (forall d :: d in nodes ==> d.payload in payloads && d.sendTimestamps in histories)
      && (forall k :: k in table ==> table[k] in nodes && table[k].dest == k)
      && (forall d :: d in nodes ==> d.dest in table && table[d.dest] == d)
      && (forall d, e :: d in nodes && e in nodes && d != e ==> d.payload != e.payload && d.sendTimestamps != e.sendTimestamps)
    }

    ghost predicate Listed()
      reads `pending, `nodes
    {
      forall i :: 0 <= i < |pending| ==> pending[i] in nodes
    }

    ghost predicate NodesValid()
      requires Separate()
      reads `table, `nodes, `payloads, `histories, nodes, payloads, histories
    {
      forall d :: d in nodes ==> d.Valid()
    }

    ghost function Table(): map<Key, Dest>
      requires Separate()
      reads `table, `nodes, `payloads, `histories, nodes, payloads, histories
    {
      map k | k in table :: table[k].View()
    }

    ghost function View(): State
      requires Separate()
      reads `table, `nodes, `payloads, `histories, `pending, `log, nodes, payloads, histories
    {
      State(Table(), KeysOf(pending), log)
    }

    /** What was handed over is what the log says. */
    ghost predicate WireMatches()
      reads `wire, `log
    {
      && |wire| == |log|
      && forall i :: 0 <= i < |log| ==> BoundedDatagram(log[i]) && wire[i] == DatagramBytes(log[i])
    }

    ghost predicate Valid()
      reads this, nodes, payloads, histories
    {
      Separate() && Listed() && NodesValid() && WireMatches() && Inv(View())
    }

    constructor ()
      ensures Valid() && View() == EMPTY && nodes == {} && payloads == {} && histories == {}
    {
      table, pending, wire, log := map[], [], [], [];
      nodes, payloads, histories := {}, {}, {};
    }

    /** A change confined to one node and its buffers shows in that node's entry only. */
    twostate lemma OnlyNodeChanged(cd: CoalesceDest)
      requires old(Separate()) && old(NodesValid()) && cd in old(nodes) && unchanged(`table) && unchanged(`nodes) && unchanged(`payloads) && unchanged(`histories)
      requires forall d :: d in nodes && d != cd ==>
                 unchanged(d) && unchanged(d.payload) && unchanged(d.sendTimestamps)
      requires cd.Valid()
      ensures Separate() && NodesValid()
      ensures Table() == old(Table())[cd.dest := cd.View()]
    {
      hide EnvelopeHeader, Concat, TotalLen;
      forall d | d in nodes && d != cd ensures d.Valid() && d.View() == old(d.View()) {
        assert old(d.Valid());
      }
    }

    /** The history part of coalesce_send(). */
    method Note(cd: CoalesceDest, now: nat) returns (shouldCoalesce: bool)
      requires Valid() && cd in nodes
      modifies cd, cd.sendTimestamps
      ensures Valid() && shouldCoalesce == cd.active
      ensures View() == old(View()).(table := old(View()).table[cd.dest := Noted(old(View()), cd.dest, now)])
    {
      hide Table, Separate, Listed, NodesValid, Inv, KeysOf, NotedDest, DatagramBytes, BoundedDatagram;
      InTable(cd);
      ShapedByInv(View());
      NoteStep(View(), cd.dest, now);
      shouldCoalesce := NoteNode(cd, now);
    }

    method NoteNode(cd: CoalesceDest, now: nat) returns (shouldCoalesce: bool)
      requires Separate() && NodesValid() && cd in nodes && |cd.View().stamps| == TRACK_COUNT
      modifies cd, cd.sendTimestamps
      ensures Separate() && NodesValid() && shouldCoalesce == cd.active
      ensures Table() == old(Table())[cd.dest := NotedDest(old(cd.View()), now)]
    {
      hide EnvelopeHeader, Concat, TotalLen, NotedDest;
      shouldCoalesce := cd.Note(now);
      OnlyNodeChanged(cd);
    }

    /** What linking a new node with buffers of its own changes. */
    twostate predicate LinksNode(cd: CoalesceDest)
      reads this
    {
      && cd.dest !in old(table) && cd !in old(nodes) && cd.payload !in old(payloads) && cd.sendTimestamps !in old(histories)
      && table == old(table)[cd.dest := cd] && nodes == old(nodes) + {cd}
      && payloads == old(payloads) + {cd.payload} && histories == old(histories) + {cd.sendTimestamps}
    }

    twostate lemma AdoptSeparate(cd: CoalesceDest)
      requires old(Separate()) && LinksNode(cd)
      ensures Separate()
    {
      forall d | d in nodes ensures d.dest in table && table[d.dest] == d {
        if d != cd { assert d in old(nodes); }
      }
    }

    twostate lemma AdoptValid(cd: CoalesceDest)
      requires old(Separate()) && old(NodesValid()) && LinksNode(cd) && Separate() && cd.Valid()
      requires forall d :: d in old(nodes) ==> unchanged(d) && unchanged(d.payload) && unchanged(d.sendTimestamps)
      ensures NodesValid()
    {
      hide cd.Valid, Table;
      forall d | d in nodes && d != cd ensures d.Valid() {
        assert d in old(nodes) && old(d.Valid());
      }
    }

    twostate lemma AdoptTable(cd: CoalesceDest)
      requires old(Separate()) && LinksNode(cd) && Separate()
      requires forall d :: d in old(nodes) ==> unchanged(d) && unchanged(d.sendTimestamps)
      ensures Table() == old(Table())[cd.dest := cd.View()]
    {
      hide cd.View;
      forall d | d in nodes && d != cd ensures d.View() == old(d.View()) {
        assert d in old(nodes);
      }
    }

    /** HASH_ADD of a node with buffers of its own. */
    method Adopt(cd: CoalesceDest)
      requires Separate() && NodesValid() && cd.Valid() && cd.dest !in table
      requires cd !in nodes && cd.payload !in payloads && cd.sendTimestamps !in histories
      modifies `table, `nodes, `payloads, `histories
      ensures Separate() && NodesValid() && Table() == old(Table())[cd.dest := cd.View()]
      ensures nodes == old(nodes) + {cd}
      ensures payloads == old(payloads) + {cd.payload} && histories == old(histories) + {cd.sendTimestamps}
    {
      hide Table, Separate, NodesValid, EnvelopeHeader, Concat, TotalLen;
      table := table[cd.dest := cd];
      nodes := nodes + {cd};
      payloads := payloads + {cd.payload};
      histories := histories + {cd.sendTimestamps};
      AdoptSeparate(cd);
      AdoptValid(cd);
      AdoptTable(cd);
    }

    lemma AbsentFromTable(k: Key)
      requires Separate()
      ensures k in Table() <==> k in table
    {}

    /** get_coalesce_by_dest's allocation of a zeroed node. */
    method NewNode(k: Key) returns (cd: CoalesceDest)
      requires Valid() && k !in table
      modifies this
      ensures Valid() && View() == old(View()).(table := old(View()).table[k := FRESH])
      ensures fresh(cd) && fresh(payloads - old(payloads)) && fresh(histories - old(histories))
      ensures nodes == old(nodes) + {cd} && cd.dest == k
    {
      hide Inv, Table, Separate, NodesValid, KeysOf, EnvelopeHeader, Concat, TotalLen, BoundedDatagram, DatagramBytes;
      AbsentFromTable(k);
      NewNodeKeepsInv(View(), k);
      cd := new CoalesceDest(k);
      Adopt(cd);
    }

    /** get_coalesce_by_dest while coalescing is enabled; null when malloc() fails. */
    method FindOrCreate(k: Key, memory: bool) returns (cd: CoalesceDest?)
      requires Valid()
      modifies this
      ensures Valid()
      ensures cd == null <==> k !in old(table) && !memory
      ensures cd == null ==> View() == old(View()) && nodes == old(nodes)
      ensures cd != null ==> cd in nodes && cd.dest == k
      ensures cd != null ==> View() == (if k in old(table) then old(View()) else old(View()).(table := old(View()).table[k := FRESH]))
      ensures fresh(nodes - old(nodes)) && fresh(payloads - old(payloads)) && fresh(histories - old(histories))
    {
      hide Inv, EnvelopeHeader, Concat, TotalLen, BoundedDatagram, DatagramBytes, KeysOf;
      if k in table {
        cd := table[k];
      } else if memory {
        cd := NewNode(k);
      } else {
        cd := null;
      }
    }

    /** What is handed to r_sendto(). */
    method HandOver(bytes: Bytes, ghost d: Datagram)
      requires WireMatches() && BoundedDatagram(d) && bytes == DatagramBytes(d)
      modifies `wire, `log
      ensures WireMatches() && log == old(log) + [d]
    {
      hide BoundedDatagram, DatagramBytes;
      wire := wire + [bytes];
      log := log + [d];
    }

    /** DL_DELETE(coalesce_pending, cd) */
    method Unlink(cd: CoalesceDest)
      requires Separate() && Listed() && cd in nodes
      modifies `pending
      ensures Listed() && KeysOf(pending) == Remove(old(KeysOf(pending)), cd.dest)
    {
      RemoveKeys(pending, cd);
      pending := Remove(pending, cd);
    }

    /** The sealed payload of one node, which is left empty. */
    method TakeFrom(cd: CoalesceDest) returns (sent: Bytes)
      requires Separate() && NodesValid() && cd in nodes && cd.payloadUsed > 0
      modifies cd, cd.payload
      ensures Separate() && NodesValid()
      ensures Table() == old(Table())[cd.dest := old(cd.View()).(queue := [])]
      ensures sent == DatagramBytes(Envelope(cd.dest, old(cd.header), old(cd.queue)))
    {
      hide EnvelopeHeader, Concat, TotalLen, DatagramBytes;
      sent := cd.TakePayload();
      OnlyNodeChanged(cd);
    }

    /** coalesce_flush; its assertion is the precondition on payloadUsed. */
    method FlushNode(cd: CoalesceDest)
      requires Valid() && cd in nodes && cd.payloadUsed > 0
      modifies this, cd, cd.payload
      ensures nodes == old(nodes) && payloads == old(payloads) && histories == old(histories) && Valid()
      ensures cd.dest in old(View()).table && old(View()).table[cd.dest].queue != []
      ensures View() == Flush(old(View()), cd.dest)
    {
      hide Table, Separate, Listed, NodesValid, Inv, Stream, KeysOf, Remove, DatagramBytes, BoundedDatagram;
      ghost var before := View();
      ghost var d := Envelope(cd.dest, cd.header, cd.queue);
      Flushable(cd);
      FlushStep(before, cd.dest);
      var sent := TakeFrom(cd);
      HandOver(sent, d);
      Unlink(cd);
      assert View() == Flush(before, cd.dest);
    }

    lemma Flushable(cd: CoalesceDest)
      requires Valid() && cd in nodes && cd.payloadUsed > 0
      ensures cd.queue != [] && cd.dest in Table() && Table()[cd.dest] == cd.View()
      ensures BoundedDatagram(Envelope(cd.dest, cd.header, cd.queue))
    {}

    /** Puts a packet into one node's payload. */
    method PutInto(cd: CoalesceDest, data: Bytes, now: nat, newHeader: Bytes)
      requires Separate() && NodesValid() && cd in nodes && Fits(cd.View(), |data|) && EnvelopeHeader(cd.dest, newHeader)
      modifies cd, cd.payload
      ensures Separate() && NodesValid()
      ensures Table() == old(Table())[cd.dest := AppendedDest(old(cd.View()), data, now, newHeader)]
    {
      hide EnvelopeHeader, Concat, TotalLen;
      cd.Put(data, newHeader, now);
      OnlyNodeChanged(cd);
    }

    /** DL_APPEND(coalesce_pending, cd) */
    method Link(cd: CoalesceDest)
      requires Listed() && cd in nodes
      modifies `pending
      ensures Listed() && KeysOf(pending) == old(KeysOf(pending)) + [cd.dest]
    {
      pending := pending + [cd];
    }

    /** coalesce_add_data */
    method AddData(cd: CoalesceDest, data: Bytes, now: nat, newHeader: Bytes) returns (added: bool)
      requires Valid() && cd in nodes && |data| > 0 && EnvelopeHeader(cd.dest, newHeader)
      modifies this, cd, cd.payload
      ensures nodes == old(nodes) && payloads == old(payloads) && histories == old(histories) && Valid()
      ensures cd.dest in old(View()).table && added == Fits(old(View()).table[cd.dest], |data|)
      ensures View() == if added then Append(old(View()), cd.dest, data, now, newHeader) else old(View())
    {
      hide Table, Separate, Listed, NodesValid, Inv, Stream, KeysOf, Used, DatagramBytes, BoundedDatagram, AppendedDest;
      InTable(cd);
      if cd.payloadUsed == 0 && IPX_HEADER + |data| > MAX_SIZE { return false; }
      if cd.payloadUsed > 0 && cd.payloadUsed + |data| > MAX_SIZE { return false; }
      AppendStep(View(), cd.dest, data, now, newHeader);
      if cd.payloadUsed == 0 {
        Link(cd);
      }
      PutInto(cd, data, now, newHeader);
      added := true;
    }

    /** A node's entry in the table, and what its payload_used says about its queue. */
    lemma InTable(cd: CoalesceDest)
      requires Separate() && NodesValid() && cd in nodes
      ensures cd.dest in Table() && Table()[cd.dest] == cd.View()
      ensures cd.payloadUsed == Used(cd.View()) && (cd.payloadUsed == 0 <==> cd.queue == [])
    {}

    /** The first decision of coalesce_send(): a small packet that does not fit flushes what is queued. */
    method MakeRoom(cd: CoalesceDest, shouldCoalesce: bool, size: nat)
      requires Valid() && cd in nodes && shouldCoalesce == cd.active
      modifies this, cd, cd.payload
      ensures nodes == old(nodes) && payloads == old(payloads) && histories == old(histories) && Valid()
      ensures cd.dest in old(View()).table && View() == RoomMade(old(View()), cd.dest, size)
      ensures cd.active == old(cd.active) && cd.dest in View().table && View().table[cd.dest].active == cd.active
    {
      hide Table, Separate, Listed, NodesValid, Inv, KeysOf, Used, Flush, DatagramBytes, BoundedDatagram;
      InTable(cd);
      if shouldCoalesce && cd.payloadUsed + size > MAX_SIZE && size < MAX_SIZE / 2 {
        MakesRoomHasPayload(cd.View(), size);
        FlushKeepsActive(View(), cd.dest);
        FlushNode(cd);
        InTable(cd);
      }
    }

    /** The last decision: an overdue payload is flushed. */
    method FlushOverdue(cd: CoalesceDest, now: nat)
      requires Valid() && cd in nodes
      modifies this, cd, cd.payload
      ensures nodes == old(nodes) && payloads == old(payloads) && histories == old(histories) && Valid()
      ensures cd.dest in old(View()).table && View() == FlushIfOverdue(old(View()), cd.dest, now)
    {
      hide Table, Separate, Listed, NodesValid, Inv, KeysOf, Used, Flush, DatagramBytes, BoundedDatagram;
      InTable(cd);
      if cd.payloadUsed > 0 && cd.payloadTimestamp + MAX_DELAY <= now {
        FlushNode(cd);
      }
    }

    /** coalesce_send() for a tracked destination, up to where a packet that was not queued is sent. */
    method Place(cd: CoalesceDest, data: Bytes, now: nat, header: Bytes) returns (queued: bool)
      requires Valid() && cd in nodes && |data| > 0 && EnvelopeHeader(cd.dest, header)
      modifies this, cd, cd.payload, cd.sendTimestamps
      ensures nodes == old(nodes) && payloads == old(payloads) && histories == old(histories) && Valid()
      ensures Shaped(old(View())) && queued == Queues(old(View()), cd.dest, |data|, now)
      ensures View() == Placed(old(View()), cd.dest, data, now, header)
    {
      hide Table, Separate, Listed, NodesValid, WireMatches, Inv, Shaped, KeysOf, RoomMade, Noted, Append, FlushIfOverdue, Fits;
      ShapedByInv(View());
      var shouldCoalesce := Note(cd, now);
      MakeRoom(cd, shouldCoalesce, |data|);
      queued := false;
      if shouldCoalesce {
        queued := AddData(cd, data, now, header);
      }
      FlushOverdue(cd, now);
    }

    /** coalesce_send; `enabled` is the configuration, `memory` whether malloc() of a node, if one
        is needed, succeeds, and sendError what a direct r_sendto() reports. */
    method Send(data: Bytes, key: Key, now: nat, localNet: Net, localNode: Node,
                enabled: bool, memory: bool, sendError: nat) returns (error: nat)
      requires Valid() && |data| > 0
      modifies this, nodes, payloads, histories
      ensures Valid() && fresh(nodes - old(nodes))
      ensures Shaped(old(View()))
      ensures View() == Coalesce.Send(old(View()), key, data, now, HeaderFor(key, localNet, localNode),
                                      enabled && (key in old(table) || memory))
      ensures error == if enabled && (key in old(table) || memory) && Queues(old(View()), key, |data|, now) then 0 else sendError
    {
      hide Table, Separate, Listed, NodesValid, WireMatches, Inv, Shaped, KeysOf, Queues, Placed, HeaderFor, BoundedDatagram;
      ShapedByInv(View());
      AbsentFromTable(key);
      SendIsPlaced(View(), key, data, now, HeaderFor(key, localNet, localNode));
      var queued := false;
      var cd: CoalesceDest? := null;
      if enabled {
        cd := FindOrCreate(key, memory);
      }
      if cd != null {
        OwnBuffers(cd);
        FreshNodeChangesNothing(old(View()), key, data, now, HeaderFor(key, localNet, localNode));
        queued := Place(cd, data, now, HeaderFor(key, localNet, localNode));
      }
      error := 0;
      if !queued {
        SendDirectly(key, data);
        error := sendError;
      }
    }

    lemma OwnBuffers(cd: CoalesceDest)
      requires Separate() && cd in nodes
      ensures cd.payload in payloads && cd.sendTimestamps in histories
    {}

    method SendDirectly(key: Key, data: Bytes)
      requires Valid()
      modifies `wire, `log
      ensures Valid() && View() == old(View()).(wire := old(View()).wire + [Direct(key, data)])
    {
      hide Table, Separate, Listed, NodesValid, Inv, KeysOf;
      DirectStep(View(), key, data);
      HandOver(data, Direct(key, data));
    }

    /** The head of the pending list has a payload. */
    lemma HeadHasPayload()
      requires Valid() && pending != []
      ensures pending[0] in nodes && pending[0].payloadUsed > 0
      ensures View().pending != [] && View().pending[0] == pending[0].dest && Linked(View())
      ensures pending[0].dest in View().table && View().table[pending[0].dest] == pending[0].View()
    {
      hide EnvelopeHeader, Concat, Fits;
      assert KeysOf(pending)[0] == pending[0].dest;
    }

    /** Flushes the head of the pending list. */
    method FlushHead()
      requires Valid() && pending != []
      modifies this, nodes, payloads
      ensures nodes == old(nodes) && payloads == old(payloads) && histories == old(histories) && Valid()
      ensures Linked(old(View())) && old(View()).pending != [] && old(View()).pending[0] in old(View()).table
      ensures old(View()).table[old(View()).pending[0]].queue != []
      ensures View() == Flush(old(View()), old(View()).pending[0])
      ensures |pending| == |old(pending)| - 1
    {
      hide Table, Separate, Listed, NodesValid, WireMatches, Inv, Linked, KeysOf, Flush;
      HeadHasPayload();
      OwnBuffers(pending[0]);
      InTable(pending[0]);
      FlushKeepsLinked(View(), pending[0].dest);
      FlushNode(pending[0]);
    }

    /** coalesce_flush_waiting */
    method FlushWaiting(now: nat)
      requires Valid()
      modifies this, nodes, payloads
      ensures Valid() && Linked(old(View())) && View() == Coalesce.FlushWaiting(old(View()), now)
    {
      hide Table, Separate, Listed, NodesValid, WireMatches, Inv, Linked, KeysOf, Flush;
      InvIsLinked(View());
      while pending != []
        invariant Valid() && Linked(View())
        invariant nodes == old(nodes) && payloads == old(payloads) && histories == old(histories)
        invariant Coalesce.FlushWaiting(View(), now) == Coalesce.FlushWaiting(old(View()), now)
        decreases |pending|
      {
        HeadHasPayload();
        InTable(pending[0]);
        if pending[0].payloadTimestamp + MAX_DELAY > now { return; }
        FlushHead();
        InvIsLinked(View());
      }
    }

    /** coalesce_cleanup: flushes everything, then frees the table. */
    method Cleanup()
      requires Valid()
      modifies this, nodes, payloads
      ensures Valid() && Linked(old(View())) && View() == Coalesce.Cleanup(old(View())) && nodes == {}
    {
      hide Table, Separate, Listed, NodesValid, WireMatches, Inv, Linked, KeysOf, Flush;
      InvIsLinked(View());
      CleanupIsInv(View());
      while pending != []
        invariant Valid() && Linked(View())
        invariant nodes == old(nodes) && payloads == old(payloads) && histories == old(histories)
        invariant FlushAll(View()) == FlushAll(old(View()))
        decreases |pending|
      {
        HeadHasPayload();
        FlushHead();
        InvIsLinked(View());
      }
      FreeTable();
    }

    /** The HASH_DEL loop: no node is left. */
    method FreeTable()
      requires Valid() && pending == []
      modifies `table, `nodes, `payloads, `histories
      ensures Separate() && Listed() && NodesValid() && nodes == {}
      ensures View() == old(View()).(table := map[])
    {
      hide EnvelopeHeader, Concat, Fits, Inv;
      table, nodes, payloads, histories := map[], {}, {}, {};
    }
  }

  /** A datagram within the size limit. */
  predicate BoundedDatagram(d: Datagram) {
    d.Envelope? ==> |d.header| == IPX_HEADER && IPX_HEADER + TotalLen(d.packets) <= MAX_SIZE
  }

  function KeysOf(s: seq<CoalesceDest>): (r: seq<Key>)
    ensures |r| == |s|
  {
    seq(|s|, i requires 0 <= i < |s| => s[i].dest)
  }

  lemma {:induction false} RemoveKeys(s: seq<CoalesceDest>, cd: CoalesceDest)
    requires forall i :: 0 <= i < |s| && s[i].dest == cd.dest ==> s[i] == cd
    ensures KeysOf(Remove(s, cd)) == Remove(KeysOf(s), cd.dest)
    ensures forall i :: 0 <= i < |Remove(s, cd)| ==> Remove(s, cd)[i] in s
  {
    hide KeysOf;
    if s != [] {
      KeysTail(s);
      if s[0] != cd {
        var r := Remove(s[1..], cd);
        RemoveKeys(s[1..], cd);
        KeysTail([s[0]] + r);
        assert ([s[0]] + r)[1..] == r;
      }
    }
  }

  lemma KeysTail(s: seq<CoalesceDest>)
    requires s != []
    ensures KeysOf(s) == [s[0].dest] + KeysOf(s[1..])
  {}

  lemma NewNodeKeepsInv(s: State, k: Key)
    requires Inv(s) && k !in s.table
    ensures Inv(s.(table := s.table[k := FRESH]))
  {}

  /** coalesce_send() of a tracked destination before a packet that was not queued is sent. */
  function Placed(s: State, k: Key, packet: Bytes, now: nat, header: Bytes): State
    requires Shaped(s)
  {
    var s1 := s.(table := s.table[k := Noted(s, k, now)]);
    var s2 := RoomMade(s1, k, |packet|);
    FlushIfOverdue(if Queues(s, k, |packet|, now) then Append(s2, k, packet, now, header) else s2, k, now)
  }

  lemma SendIsPlaced(s: State, k: Key, packet: Bytes, now: nat, header: Bytes)
    requires Shaped(s)
    ensures Send(s, k, packet, now, header, true)
         == var p := Placed(s, k, packet, now, header);
            if Queues(s, k, |packet|, now) then p else p.(wire := p.wire + [Direct(k, packet)])
  {}

  /** A node that has just been allocated makes no difference to the send that follows. */
  lemma FreshNodeChangesNothing(s: State, k: Key, packet: Bytes, now: nat, header: Bytes)
    requires Shaped(s)
    ensures k !in s.table ==>
              var f := s.(table := s.table[k := FRESH]);
              && Shaped(f)
              && Placed(f, k, packet, now, header) == Placed(s, k, packet, now, header)
              && Queues(f, k, |packet|, now) == Queues(s, k, |packet|, now)
  {
    if k !in s.table {
      var f := s.(table := s.table[k := FRESH]);
      assert Noted(f, k, now) == Noted(s, k, now);
      assert f.table[k := Noted(f, k, now)] == s.table[k := Noted(s, k, now)];
    }
  }

  lemma FlushKeepsActive(s: State, k: Key)
    requires k in s.table && s.table[k].queue != []
    ensures k in Flush(s, k).table && Flush(s, k).table[k].active == s.table[k].active
  {}

  lemma InvIsLinked(s: State)
    requires Inv(s)
    ensures Linked(s)
  {}

  lemma CleanupIsInv(s: State)
    requires Inv(s)
    ensures Linked(s) && Inv(Coalesce.Cleanup(s))
  {
    CleanupStep(s);
  }

  /** Writing the two length bytes into header and packets gives the bytes of the envelope. */
  lemma SealedBytes(header: Bytes, packets: Bytes, n: nat, before: Bytes, after: Bytes)
    requires |header| == IPX_HEADER && n < 65536 && before == header + packets && |after| == |before|
    requires after[2] == n / 256 && after[3] == n % 256
    requires forall i :: 0 <= i < |before| && i != 2 && i != 3 ==> after[i] == before[i]
    ensures after == WithLength(header, n) + packets
  {}
}
