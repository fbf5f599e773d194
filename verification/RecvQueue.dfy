/** The receive queue of an emulated socket: 32 slots, the ready[] index array, the reference
    count, and the sections of recv_pump() and recv_packet() that run under the sockets lock. */
module RecvQueue {
  import opened Ipx
  import opened Options

  const FREE := -1
  const LOCKED := -2

  datatype Queue = Queue(sizes: seq<int>, ready: seq<int>, data: seq<Bytes>, refcount: int)

  ghost predicate Shaped(q: Queue) {
    |q.sizes| == 32 && |q.data| == 32
  }

  /** The slot recv_pump() claims: the first free one, or 32 when there is none. */
  function FirstFree(sizes: seq<int>): (i: nat)
    ensures i <= |sizes|
    ensures i < |sizes| ==> sizes[i] == FREE
    ensures forall j :: 0 <= j < i ==> sizes[j] != FREE
  {
    if sizes == [] || sizes[0] == FREE then 0 else 1 + FirstFree(sizes[1..])
  }

  function CountFree(sizes: seq<int>): nat {
    if sizes == [] then 0 else CountFree(sizes[..|sizes| - 1]) + if sizes[|sizes| - 1] == FREE then 1 else 0
  }

  /** The queue after a pump has claimed its slot and its reference. */
  function Claimed(q: Queue): Queue
    requires Shaped(q) && FirstFree(q.sizes) < 32
  {
    q.(sizes := q.sizes[FirstFree(q.sizes) := LOCKED], refcount := q.refcount + 1)
  }

  /** Whether the r bytes recv() left in a slot are published. */
  predicate Publishes(q: Queue, slot: int, r: int)
    requires 0 <= slot < |q.data|
  {
    r >= HEADER && |q.data[slot]| == r && r == LittleEndian16(q.data[slot], 25) + HEADER
  }

  /** The queue after the pump that holds `slot` has the lock back: `found` says whether the
      socket table still holds its socket. A published slot keeps the pump's reference. */
  function Reclaimed(q: Queue, slot: int, r: int, found: bool): Queue
    requires Shaped(q) && 0 <= slot < 32
  {
    if !found then q.(refcount := q.refcount - 1)
    else if Publishes(q, slot, r) then q.(sizes := q.sizes[slot := r], ready := q.ready + [slot])
    else q.(sizes := q.sizes[slot := FREE], refcount := q.refcount - 1)
  }

  /** The queue after a read without MSG_PEEK. */
  function Popped(q: Queue): Queue
    requires Shaped(q) && q.ready != [] && 0 <= q.ready[0] < 32
  {
    q.(sizes := q.sizes[q.ready[0] := FREE], ready := q.ready[1..])
  }

  /** The packets ready to be read, oldest first. */
  function ReadyPackets(q: Queue): (s: seq<Bytes>)
    requires forall k :: 0 <= k < |q.ready| ==> 0 <= q.ready[k] < |q.data|
    ensures |s| == |q.ready|
  {
    seq(|q.ready|, k requires 0 <= k < |q.ready| => q.data[q.ready[k]])
  }

  /** What holds of the queue whenever the sockets lock is free. */
  ghost predicate WellFormed(q: Queue) {
    && Shaped(q)
    && (forall k :: 0 <= k < |q.ready| ==> 0 <= q.ready[k] < 32)
    && (forall j, k :: 0 <= j < k < |q.ready| ==> q.ready[j] != q.ready[k])
    && (forall i :: 0 <= i < 32 ==> (q.sizes[i] >= 0 <==> i in q.ready) && q.sizes[i] >= LOCKED)
    && (forall i :: 0 <= i < 32 && q.sizes[i] >= 0 ==> q.sizes[i] == |q.data[i]| && Acceptable(q.data[i]))
  }

  function Payload(d: Bytes): nat
    requires |d| >= HEADER
  {
    LittleEndian16(d, 25)
  }

  /** What FIONREAD adds up. */
  function PayloadTotal(s: seq<Bytes>): nat
    requires forall i :: 0 <= i < |s| ==> |s[i]| >= HEADER
  {
    if s == [] then 0 else PayloadTotal(s[..|s| - 1]) + Payload(s[|s| - 1])
  }

  /** What a reader is told about the sender: its address, net, node and socket; and, on a socket
      with extended addresses and given room for one, the packet's type and sa_flags. */
  datatype Extension = Extension(ptype: Byte, flags: int)
  datatype Source = Source(addr: Bytes, extension: Option<Extension>)

  /** The flags: 0x01 for a packet to the broadcast node, 0x02 for one from an own interface. */
  function SourceOf(packet: Bytes, extended: bool, interfaces: set<Bytes>): Source
    requires |packet| >= HEADER
  {
    var flags := (if packet[5..11] == seq(6, _ => 0xFF) then 1 else 0) + if packet[13..23] in interfaces then 2 else 0;
    Source(packet[13..25], if extended then Some(Extension(packet[0], flags)) else None)
  }

  class SocketQueue {
    var refcount: int
    const ready: array<int>
    var nReady: int
    const data: array<Bytes>
    const sizes: array<int>

    ghost predicate Arrays()
      reads this
    {
      ready.Length == 32 && data.Length == 32 && sizes.Length == 32 && 0 <= nReady <= 32 && ready != sizes
    }

    ghost function View(): Queue
      requires Arrays()
      reads this, ready, data, sizes
    {
      Queue(sizes[..], ready[..nReady], data[..], refcount)
    }

    /** The initialisation in socket(). */
    constructor ()
      ensures Arrays() && fresh(ready) && fresh(data) && fresh(sizes)
      ensures WellFormed(View()) && View().ready == [] && refcount == 1
      ensures forall i :: 0 <= i < 32 ==> sizes[i] == FREE
    {
      refcount := 1;
      nReady := 0;
      ready := new int[32];
      data := new Bytes[32](_ => []);
      sizes := new int[32];
      new;
      for i := 0 to 32
        modifies sizes
        invariant forall j :: 0 <= j < i ==> sizes[j] == FREE
      {
        sizes[i] := FREE;
      }
    }

    /** recv_queue_adjust_refcount */
    method AdjustRefcount(adj: int) returns (newRefcount: int)
      modifies `refcount
      ensures refcount == newRefcount == old(refcount) + adj
    {
      refcount := refcount + adj;
      newRefcount := refcount;
    }

    /** release_recv_queue: true when the queue is destroyed. */
    method Release() returns (destroyed: bool)
      modifies `refcount
      ensures refcount == old(refcount) - 1 && destroyed == (refcount == 0)
    {
      var newRefcount := AdjustRefcount(-1);
      destroyed := newRefcount == 0;
    }

    /** The search loop of recv_pump(); 32 stands for its "no free slot" return. */
    method Claim() returns (slot: nat)
      requires Arrays()
      modifies this, sizes
      ensures Arrays() && slot == FirstFree(old(sizes[..]))
      ensures View() == if slot < 32 then Claimed(old(View())) else old(View())
    {
      slot := 0;
      while slot < 32
        invariant slot <= 32
        invariant FirstFree(sizes[..]) == slot + FirstFree(sizes[slot..])
        invariant unchanged(this) && unchanged(sizes)
      {
        if sizes[slot] == FREE {
          sizes[slot] := LOCKED;
          var _ := AdjustRefcount(1);
          return;
        }
        slot := slot + 1;
      }
    }

    /** recv_pump() after it has tried to reclaim the socket; the outcome is its return value. */
    method Reclaim(slot: int, r: int, found: bool) returns (outcome: int)
      requires Arrays() && 0 <= slot < 32 && (r >= 0 ==> |data[slot]| == r)
      requires found ==> nReady < 32
      modifies this, sizes, ready
      ensures Arrays() && View() == Reclaimed(old(View()), slot, r, found)
      ensures outcome == if found && Publishes(old(View()), slot, r) then 1 else -1
    {
      if !found {
        var _ := Release();
        return -1;
      }
      if r < 0 || r < HEADER || r != LittleEndian16(data[slot], 25) + HEADER {
        sizes[slot] := FREE;
        var _ := Release();
        return -1;
      }
      sizes[slot] := r;
      ready[nReady] := slot;
      nReady := nReady + 1;
      return 1;
    }

    /** The part of recv_packet() that fills in the caller's sockaddr. */
    static method CopySource(packet: Bytes, extended: bool, interfaces: set<Bytes>) returns (source: Option<Source>)
      requires |packet| >= HEADER
      ensures source == Some(SourceOf(packet, extended, interfaces))
    {
      var extension := None;
      if extended {
        var flags := 0;
        if packet[5..11] == seq(6, _ => 0xFF) { flags := flags + 1; }
        if packet[13..23] in interfaces { flags := flags + 2; }
        extension := Some(Extension(packet[0], flags));
      }
      source := Some(Source(packet[13..17] + packet[17..23] + packet[23..25], extension));
      assert packet[13..17] + packet[17..23] + packet[23..25] == packet[13..25];
    }

    /** recv_packet() once a packet is ready: what it returns, copies and leaves queued. `interfaces`
        are the addresses, net and node, of this machine's. */
    method Read(bufsize: nat, peek: bool, wantsSource: bool, extended: bool, interfaces: set<Bytes>)
      returns (packet: Bytes, copied: Bytes, source: Option<Source>, rval: int)
      requires Arrays() && WellFormed(View()) && nReady >= 1
      modifies this, sizes, ready
      ensures Arrays() && WellFormed(View())
      ensures packet == old(ReadyPackets(View()))[0] && Acceptable(packet)
      ensures rval == |packet| - HEADER
      ensures source == if wantsSource then Some(SourceOf(packet, extended, interfaces)) else None
      ensures copied == packet[HEADER..][..if rval <= bufsize then rval else bufsize]
      ensures View() == if peek then old(View()) else Popped(old(View()))
      ensures ReadyPackets(View()) == if peek then old(ReadyPackets(View())) else old(ReadyPackets(View()))[1..]
    {
      hide SourceOf, FirstFree;
      var slot := ready[0];
      packet := data[slot];
      assert View().ready[0] == slot && slot in View().ready;
      assert sizes[slot] >= 0;
      source := None;
      if wantsSource { source := CopySource(packet, extended, interfaces); }
      var size := LittleEndian16(packet, 25);
      copied := packet[HEADER..HEADER + if size <= bufsize then size else bufsize];
      rval := size;
      if !peek {
        PopKeepsWellFormed(View());
        DropHead();
      }
    }

    /** The part of recv_packet() that takes the packet off the queue. */
    method DropHead()
      requires Arrays() && nReady >= 1 && 0 <= ready[0] < 32
      modifies this, sizes, ready
      ensures Arrays() && View() == Popped(old(View()))
    {
      sizes[ready[0]] := FREE;
      nReady := nReady - 1;
      MoveDown(ready, nReady);
    }
  }

  /** The memmove() that closes the gap at the head of ready[]. */
  method MoveDown(a: array<int>, n: nat)
    requires n < a.Length
    modifies a
    ensures a[..n] == old(a[..n + 1])[1..]
  {
    for i := 0 to n
      invariant forall j :: 0 <= j < i ==> a[j] == old(a[j + 1])
      invariant forall j :: i <= j < a.Length ==> a[j] == old(a[j])
    {
      a[i] := a[i + 1];
    }
  }

  lemma PopKeepsWellFormed(q: Queue)
    requires WellFormed(q) && q.ready != []
    ensures WellFormed(Popped(q))
    ensures ReadyPackets(Popped(q)) == ReadyPackets(q)[1..]
  {
    hide Acceptable;
    var p := Popped(q);
    forall i | 0 <= i < 32 ensures (p.sizes[i] >= 0 <==> i in p.ready) && p.sizes[i] >= LOCKED {
    }
  }
}
