/** The sockets lock in the receiving calls: whatever the underlying library answers and the other
    threads do, each call leaves the lock as often as it enters it, and waits only without it. */
module RecvLocking {
  import opened Options

  /** A critical section as one thread sees it: it must be left as often as it is entered. */
  class SocketsLock {
    var depth: nat

    constructor ()
      ensures depth == 0
    {
      depth := 0;
    }

    method Enter()
      modifies this
      ensures depth == old(depth) + 1
    {
      depth := depth + 1;
    }

    method Leave()
      requires depth > 0
      modifies this
      ensures depth == old(depth) - 1
    {
      depth := depth - 1;
    }
  }

  /** What get_socket() finds under the descriptor after recv(): nothing, a socket opened since,
      or the socket it was called for. */
  datatype Lookup = Gone | Other | Same
  datatype Received = Failed | Invalid | Published

  /** What one recv_pump() meets: the bytes r_ioctlsocket() reports (None: it fails), whether a slot
      is free, what recv() brings and whether the socket is still there then. */
  datatype Pass = Pass(available: Option<nat>, slotFree: bool, received: Received, lookup: Lookup)

  predicate IoctlFails(block: bool, p: Pass) { !block && p.available.None? }

  predicate NothingWaits(block: bool, p: Pass) { !block && p.available == Some(0) }

  /** recv_pump() leaves the lock and waits in recv(). */
  predicate Receives(block: bool, p: Pass) {
    !IoctlFails(block, p) && !NothingWaits(block, p) && p.slotFree
  }

  predicate Publishes(block: bool, p: Pass) {
    Receives(block, p) && p.lookup.Same? && p.received.Published?
  }

  /** It finds nothing to do and keeps the lock. */
  predicate Idles(block: bool, p: Pass) {
    !IoctlFails(block, p) && !Receives(block, p)
  }

  /** get_socket: the lock is kept only for a socket that is found. */
  method GetSocket(l: SocketsLock, found: bool)
    modifies l
    ensures l.depth == old(l.depth) + if found then 1 else 0
  {
    l.Enter();
    if !found { l.Leave(); }
  }

  /** recv() on the underlying socket, which can wait for ever. */
  method UnderlyingRecv(l: SocketsLock, p: Pass) returns (received: Received)
    requires l.depth == 0
    ensures received == p.received
  {
    received := p.received;
  }

  method ReclaimSocket(l: SocketsLock, lookup: Lookup) returns (ok: bool)
    modifies l
    ensures ok == lookup.Same? && l.depth == old(l.depth) + if ok then 1 else 0
  {
    GetSocket(l, !lookup.Gone?);
    if !lookup.Same? {
      if lookup.Other? { l.Leave(); }
      return false;
    }
    return true;
  }

  /** recv_pump: with 0 or 1 it still has the lock, with -1 it has left it. */
  method RecvPump(l: SocketsLock, block: bool, p: Pass) returns (r: int)
    requires l.depth == 1
    modifies l
    ensures r in {-1, 0, 1} && l.depth == if r == -1 then 0 else 1
    ensures r == if !block && p.available.None? then -1
                 else if (!block && p.available.value == 0) || !p.slotFree then 0
                 else if p.lookup.Same? && p.received.Published? then 1 else -1
    ensures (r == 1 <==> Publishes(block, p)) && (r == 0 <==> Idles(block, p))
  {
    if !block {
      if p.available.None? {
        l.Leave();
        return -1;
      } else if p.available.value == 0 {
        return 0;
      }
    }
    if !p.slotFree { return 0; }
    l.Leave();
    var received := UnderlyingRecv(l, p);
    var ok := ReclaimSocket(l, p.lookup);
    if !ok { return -1; }
    if received.Failed? {
      l.Leave();
      return -1;
    }
    if received.Invalid? {
      l.Leave();
      return -1;
    }
    return 1;
  }

  /** Whether a call has come back, or is still in its loop after the passes given. */
  datatype Outcome = Success | Failure | Looping

  /** The pass that ends the loop of recv_packet(): the first that finds a free slot. */
  ghost predicate EndsWait(passes: seq<Pass>, i: int) {
    0 <= i < |passes| && passes[i].slotFree && forall j :: 0 <= j < i ==> !passes[j].slotFree
  }

  /** recv_packet: it has left the lock when it returns. It keeps looping, with the lock, exactly
      while nothing is ready and no slot is free. */
  method RecvPacket(l: SocketsLock, bound: bool, ready: bool, passes: seq<Pass>) returns (r: Outcome)
    requires l.depth == 1
    modifies l
    ensures l.depth == if r.Looping? then 1 else 0
    ensures r.Looping? <==> bound && !ready && forall i :: 0 <= i < |passes| ==> !passes[i].slotFree
    ensures r.Success? <==> bound && (ready || exists i :: EndsWait(passes, i) && Publishes(true, passes[i]))
  {
    if !bound {
      l.Leave();
      return Failure;
    }
    var nReady, i := ready, 0;
    while !nReady
      invariant l.depth == 1 && 0 <= i <= |passes|
      invariant !nReady ==> !ready && forall j :: 0 <= j < i ==> !passes[j].slotFree
      invariant nReady && !ready ==> exists k :: EndsWait(passes, k) && Publishes(true, passes[k])
      decreases |passes| - i, !nReady
    {
      if i == |passes| { return Looping; }
      var pumped := RecvPump(l, true, passes[i]);
      assert passes[i].slotFree ==> EndsWait(passes, i);
      if pumped < 0 { return Failure; }
      if pumped == 1 { nReady := true; }
      i := i + 1;
    }
    l.Leave();
    return Success;
  }

  /** The pass that ends the loop of ioctlsocket(): the first that publishes nothing. */
  ghost predicate EndsDrain(passes: seq<Pass>, i: int) {
    0 <= i < |passes| && !Publishes(false, passes[i]) && forall j :: 0 <= j < i ==> Publishes(false, passes[j])
  }

  /** ioctlsocket(FIONREAD) on an emulated socket that is not SPX. */
  method Fionread(l: SocketsLock, passes: seq<Pass>) returns (r: Outcome)
    requires l.depth == 1
    modifies l
    ensures l.depth == if r.Looping? then 1 else 0
    ensures r.Looping? <==> forall i :: 0 <= i < |passes| ==> Publishes(false, passes[i])
    ensures r.Success? <==> exists i :: EndsDrain(passes, i) && Idles(false, passes[i])
  {
    var i := 0;
    while true
      invariant l.depth == 1 && 0 <= i <= |passes|
      invariant forall j :: 0 <= j < i ==> Publishes(false, passes[j])
      decreases |passes| - i
    {
      if i == |passes| { return Looping; }
      var pumped := RecvPump(l, false, passes[i]);
      assert pumped != 1 ==> EndsDrain(passes, i);
      if pumped < 0 { return Failure; }
      if pumped == 0 { break; }
      i := i + 1;
    }
    l.Leave();
    return Success;
  }

  /** A socket call that goes to the underlying library. */
  method Underlying(l: SocketsLock, p: Pass) returns (r: Outcome)
    requires l.depth == 0
    ensures r == if p.received.Failed? then Failure else Success
  {
    var received := UnderlyingRecv(l, p);
    r := if received.Failed? then Failure else Success;
  }

  /** What a receiving call finds: the descriptor's socket, if it is an emulated one, and its state. */
  datatype Entry = Entry(found: bool, spx: bool, bound: bool, ready: bool)

  /** recvfrom() and, with no address to fill in, recv(): a call that returns has left the lock. */
  method RecvFrom(l: SocketsLock, e: Entry, addressTooShort: bool, passes: seq<Pass>, direct: Pass) returns (r: Outcome)
    requires l.depth == 0
    modifies l
    ensures l.depth == if r.Looping? then 1 else 0
    ensures r.Looping? <==> && e.found && !e.spx && !addressTooShort && e.bound && !e.ready
                            && forall i :: 0 <= i < |passes| ==> !passes[i].slotFree
    ensures r.Success? <==>
              if e.found && !e.spx then
                !addressTooShort && e.bound && (e.ready || exists i :: EndsWait(passes, i) && Publishes(true, passes[i]))
              else !direct.received.Failed?
  {
    GetSocket(l, e.found);
    if e.found {
      if e.spx {
        l.Leave();
        r := Underlying(l, direct);
      } else {
        if addressTooShort {
          l.Leave();
          return Failure;
        }
        r := RecvPacket(l, e.bound, e.ready, passes);
      }
    } else {
      r := Underlying(l, direct);
    }
  }

  /** ioctlsocket: a call that returns has left the lock. */
  method Ioctlsocket(l: SocketsLock, e: Entry, fionread: bool, passes: seq<Pass>, direct: Pass) returns (r: Outcome)
    requires l.depth == 0
    modifies l
    ensures l.depth == if r.Looping? then 1 else 0
    ensures r.Looping? <==> e.found && fionread && !e.spx && forall i :: 0 <= i < |passes| ==> Publishes(false, passes[i])
    ensures r.Success? <==>
              if e.found && fionread && !e.spx then exists i :: EndsDrain(passes, i) && Idles(false, passes[i])
              else !direct.received.Failed?
  {
    GetSocket(l, e.found);
    if e.found {
      if fionread && !e.spx {
        r := Fionread(l, passes);
        return;
      }
      l.Leave();
    }
    r := Underlying(l, direct);
  }
}
