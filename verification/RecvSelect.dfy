/** select() on emulated sockets: descriptors with packets in their receive queue are readable
    although the underlying socket may not be. */
module RecvSelect {
  import opened Ipx
  import opened RecvQueue
  import opened RecvInterleavings
  import opened RecvDelivery
  import opened RecvOrder
  import opened Sequences

  /** The descriptors of read set `fds` whose emulated socket, SPX sockets aside, has packets queued. */
  ghost function Forced(fds: seq<int>, sockets: map<int, SocketQueue>): seq<int>
    reads sockets.Values
  {
    if fds == [] then []
    else
      var fd := fds[|fds| - 1];
      Forced(fds[..|fds| - 1], sockets) + if fd in sockets && sockets[fd].nReady > 0 then [fd] else []
  }

  lemma {:induction false} InForced(fds: seq<int>, sockets: map<int, SocketQueue>, fd: int)
    ensures fd in Forced(fds, sockets) <==> fd in fds && fd in sockets && sockets[fd].nReady > 0
  {
    if fds != [] {
      InForced(fds[..|fds| - 1], sockets, fd);
      assert fds == fds[..|fds| - 1] + [fds[|fds| - 1]];
    }
  }

  lemma {:induction false} ForcedDistinct(fds: seq<int>, sockets: map<int, SocketQueue>)
    requires Distinct(fds)
    ensures Distinct(Forced(fds, sockets)) && |Forced(fds, sockets)| <= |fds|
  {
    if fds != [] {
      var prefix, fd := fds[..|fds| - 1], fds[|fds| - 1];
      ForcedDistinct(prefix, sockets);
      InForced(prefix, sockets, fd);
    }
  }

  /** The loop before r_select(): which descriptors to inject, and whether not to wait. */
  method CollectReady(readfds: seq<int>, sockets: map<int, SocketQueue>) returns (force: seq<int>, immediate: bool)
    ensures force == Forced(readfds, sockets) && (immediate <==> force != [])
  {
    force, immediate := [], false;
    for i := 0 to |readfds|
      invariant force == Forced(readfds[..i], sockets) && (immediate <==> force != [])
    {
      assert readfds[..i + 1][..i] == readfds[..i];
      var fd := readfds[i];
      if fd in sockets {
        if sockets[fd].nReady > 0 {
          force := force + [fd];
          immediate := true;
        }
      }
    }
    assert readfds[..|readfds|] == readfds;
  }

  /** The loop after it: the read set r_select() left, with the collected descriptors back in. */
  method Inject(force: seq<int>, left: seq<int>, r: int) returns (readfds: seq<int>, n: int)
    requires Distinct(left) && Distinct(force)
    ensures r < 0 ==> readfds == left && n == r
    ensures r >= 0 ==>
              && Distinct(readfds) && n - |readfds| == r - |left|
              && forall fd :: fd in readfds <==> fd in left || fd in force
  {
    readfds, n := left, r;
    if r >= 0 {
      for i := 0 to |force|
        invariant Distinct(readfds) && n - |readfds| == r - |left|
        invariant forall fd :: fd in readfds <==> fd in left || fd in force[..i]
      {
        assert force[..i + 1] == force[..i] + [force[i]];
        if force[i] !in readfds {
          readfds := readfds + [force[i]];
          n := n + 1;
        }
      }
      assert force[..|force|] == force;
    }
  }

  /** What r_select() answers for a read set: the descriptors with a datagram in the kernel's
      buffer, and the number of descriptors ready in all sets, `others` of them elsewhere. */
  ghost predicate KernelAnswer(fds: seq<int>, kernel: map<int, seq<Bytes>>, left: seq<int>, r: int, others: nat)
    requires forall i :: 0 <= i < |fds| ==> fds[i] in kernel
  {
    && Distinct(left) && r == |left| + others
    && forall fd :: fd in left <==> fd in fds && kernel[fd] != []
  }

  /** select() on emulated sockets, given what r_select() leaves and returns. If that fails, so does
      this. Otherwise a descriptor is readable exactly when its socket has a packet queued or a
      datagram waiting in the kernel, and the count is that of the sets returned. */
  method Select(fds: seq<int>, sockets: map<int, SocketQueue>, ghost kernel: map<int, seq<Bytes>>,
                left: seq<int>, r: int, ghost others: nat)
    returns (readfds: seq<int>, n: int, immediate: bool)
    requires Distinct(fds) && Distinct(left)
    requires forall i :: 0 <= i < |fds| ==> fds[i] in kernel
    requires r >= 0 ==> KernelAnswer(fds, kernel, left, r, others)
    ensures r < 0 ==> readfds == left && n == r
    ensures r >= 0 ==>
              && (forall fd :: fd in readfds <==>
                    fd in fds && (kernel[fd] != [] || (fd in sockets && sockets[fd].nReady > 0)))
              && Distinct(readfds) && n == |readfds| + others
    ensures immediate <==> exists fd :: fd in fds && fd in sockets && sockets[fd].nReady > 0
  {
    var force;
    force, immediate := CollectReady(fds, sockets);
    ForcedDistinct(fds, sockets);
    forall fd ensures fd in force <==> fd in fds && fd in sockets && sockets[fd].nReady > 0 {
      InForced(fds, sockets, fd);
    }
    if immediate { assert force[0] in force; }
    readfds, n := Inject(force, left, r);
  }

  lemma {:induction false} SomeAccepted(s: seq<Bytes>)
    ensures Accepted(s) != [] <==> exists i :: 0 <= i < |s| && Acceptable(s[i])
  {
    hide Acceptable;
    if s != [] {
      SomeAccepted(s[1..]);
      if i :| 0 < i < |s| && Acceptable(s[i]) {
        assert Acceptable(s[1..][i - 1]);
      }
      if Accepted(s[1..]) != [] {
        var i :| 0 <= i < |s[1..]| && Acceptable(s[1..][i]);
        assert Acceptable(s[i + 1]);
      }
    }
  }

  /** What select() reports readable is a non-empty FIFO, exactly unless the socket has nothing
      but datagrams waiting that recv_pump() will discard. */
  lemma ReadableIffFifo(w: World)
    requires Inv(w) && w.pumps == map[]
    ensures HandSound(w, [])
    ensures (w.q.ready != [] || w.kernel != [] <==> Fifo(w, []) != [])
       <==> (w.q.ready != [] || w.kernel == [] || exists i :: 0 <= i < |w.kernel| && Acceptable(w.kernel[i]))
  {
    SomeAccepted(w.kernel);
  }

  /** It comes to that when an empty datagram arrives: the socket is readable and the FIFO empty. */
  lemma ReadableForNothing(run: seq<Event>)
    requires run == [Arrive([])]
    ensures Possible(START, run) && WellFormed(Final(START, run).q)
    ensures Final(START, run).kernel != [] && Fifo(Final(START, run), []) == []
  {
    StartInv();
    assert run[1..] == [];
    var w := Final(START, run);
    assert w == Apply(START, Arrive([])) && w.kernel == [[]];
    assert w.kernel[1..] == [] && Accepted(w.kernel) == [];
  }
}
