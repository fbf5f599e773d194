/** ioctlsocket(FIONREAD): drain the kernel's buffer into the queue, then add up what is ready. */
module RecvFionread {
  import opened Ipx
  import opened RecvQueue
  import opened RecvInterleavings
  import opened RecvDelivery

  /** What the underlying FIONREAD reports: the bytes in the kernel's buffer. */
  function TotalBytes(kernel: seq<Bytes>): nat {
    if kernel == [] then 0 else |kernel[0]| + TotalBytes(kernel[1..])
  }

  /** The queue between calls of one reading thread: no slot is overcommitted. */
  ghost predicate Idle(q: Queue) {
    WellFormed(q) && CountFree(q.sizes) + |q.ready| <= 32
  }

  /** A claim, a successful recv() of d and a reclaim: what that leaves. */
  lemma PumpedQueue(q: Queue, d: Bytes, kept: Bytes, r: int)
    requires Idle(q) && FirstFree(q.sizes) < 32
    requires if |d| <= MAX_PKT_SIZE then kept == d && r == |d| else |kept| == MAX_PKT_SIZE && r == -1
    ensures var slot := FirstFree(q.sizes);
            var c := Claimed(q);
            var q' := Reclaimed(c.(data := c.data[slot := kept]), slot, r, true);
            && |q.ready| < 32
            && (Publishes(c.(data := c.data[slot := kept]), slot, r) <==> Acceptable(d))
            && Idle(q')
            && ReadyPackets(q') == ReadyPackets(q) + (if Acceptable(d) then [d] else [])
            && CountFree(q'.sizes) == CountFree(q.sizes) - if Acceptable(d) then 1 else 0
  {
    var slot := FirstFree(q.sizes);
    var c := Claimed(q);
    var f := c.(data := c.data[slot := kept]);
    ClaimedWellFormed(q);
    ReceivedWellFormed(c, slot, kept);
    ReclaimedWellFormed(f, slot, r, true);
    hide FirstFree, CountFree;
    ClaimLeavesReady(q);
    ReceiveLeavesReady(c, slot, kept);
    ReclaimLeavesReady(f, slot, r);
  }

  /** A claim undone by a recv() that fails. */
  lemma UnclaimedQueue(q: Queue)
    requires Idle(q) && FirstFree(q.sizes) < 32
    ensures Reclaimed(Claimed(q), FirstFree(q.sizes), -1, true) == q
  {
    var slot := FirstFree(q.sizes);
    assert q.sizes[slot := LOCKED][slot := FREE] == q.sizes;
  }

  /** recv_pump(sock, FALSE) with no other thread about: 1, 0 or -1 as the source returns, given
      whether r_ioctlsocket() fails in it, and whether recv() would. */
  method PumpWithoutBlocking(queue: SocketQueue, kernel: seq<Bytes>, ioctlFails: bool, recvFails: bool)
    returns (outcome: int, rest: seq<Bytes>)
    requires queue.Arrays() && Idle(queue.View())
    modifies queue, queue.sizes, queue.ready, queue.data
    ensures queue.Arrays() && Idle(queue.View())
    ensures outcome in {-1, 0, 1} && (ioctlFails ==> outcome == -1)
    ensures outcome == 0 ==> queue.View() == old(queue.View()) && rest == kernel
                             && (TotalBytes(kernel) == 0 || CountFree(queue.sizes[..]) == 0)
    ensures outcome != 0 && !ioctlFails ==>
              kernel != [] && TotalBytes(kernel) > 0 && old(CountFree(queue.sizes[..])) > 0
              && rest == (if recvFails then kernel else kernel[1..])
              && (outcome == -1 <==> recvFails || !Acceptable(kernel[0]))
    ensures outcome == 1 ==> ReadyPackets(queue.View()) == old(ReadyPackets(queue.View())) + [kernel[0]]
                             && CountFree(queue.sizes[..]) == old(CountFree(queue.sizes[..])) - 1
    ensures outcome == -1 ==> ReadyPackets(queue.View()) == old(ReadyPackets(queue.View()))
                              && CountFree(queue.sizes[..]) == old(CountFree(queue.sizes[..]))
    ensures ioctlFails || (recvFails && outcome == -1) ==> queue.View() == old(queue.View()) && rest == kernel
  {
    rest := kernel;
    if ioctlFails { return -1, rest; }
    if TotalBytes(kernel) == 0 { return 0, rest; }
    ghost var before := queue.View();
    CountFreeNone(queue.sizes[..]);
    var slot := queue.Claim();
    if slot == 32 { return 0, rest; }
    if recvFails {
      UnclaimedQueue(before);
      outcome := queue.Reclaim(slot, -1, true);
      return;
    }
    var d := kernel[0];
    rest := kernel[1..];
    var kept, r := d, |d|;
    if |d| > MAX_PKT_SIZE {
      kept, r := d[..MAX_PKT_SIZE], -1;
    }
    PumpedQueue(before, d, kept, r);
    queue.data[slot] := kept;
    assert queue.View() == Claimed(before).(data := Claimed(before).data[slot := kept]);
    hide Publishes, Acceptable, Idle, FirstFree, CountFree;
    outcome := queue.Reclaim(slot, r, true);
  }

  ghost predicate AllAcceptable(s: seq<Bytes>) {
    forall i :: 0 <= i < |s| ==> Acceptable(s[i])
  }

  /** What a run of non-blocking pumps has done: moved the first m datagrams into the queue. */
  ghost predicate Drained(before: Queue, after: Queue, kernel: seq<Bytes>, m: int) {
    && Idle(before) && Idle(after) && 0 <= m <= |kernel|
    && AllAcceptable(kernel[..m])
    && ReadyPackets(after) == ReadyPackets(before) + kernel[..m]
    && CountFree(after.sizes) == CountFree(before.sizes) - m
  }

  lemma NothingDrained(q: Queue, kernel: seq<Bytes>)
    requires Idle(q)
    ensures Drained(q, q, kernel, 0)
  {
    assert ReadyPackets(q) + kernel[..0] == ReadyPackets(q);
  }

  lemma DrainedFree(before: Queue, after: Queue, kernel: seq<Bytes>, m: int)
    requires Drained(before, after, kernel, m)
    ensures CountFree(after.sizes) == CountFree(before.sizes) - m
  {}

  lemma DrainOneMore(before: Queue, middle: Queue, after: Queue, kernel: seq<Bytes>, m: int)
    requires Drained(before, middle, kernel, m) && m < |kernel| && Acceptable(kernel[m]) && Idle(after)
    requires ReadyPackets(after) == ReadyPackets(middle) + [kernel[m]]
    requires CountFree(after.sizes) == CountFree(middle.sizes) - 1
    ensures Drained(before, after, kernel, m + 1)
  {}

  lemma FailedPumpDrains(before: Queue, middle: Queue, after: Queue, kernel: seq<Bytes>, m: int)
    requires Drained(before, middle, kernel, m) && Idle(after)
    requires ReadyPackets(after) == ReadyPackets(middle) && CountFree(after.sizes) == CountFree(middle.sizes)
    ensures Drained(before, after, kernel, m)
  {}

  /** How many r_ioctlsocket() and how many recv() calls succeed before one fails. */
  datatype Library = Library(ioctls: nat, recvs: nat)

  /** The datagrams that FIONREAD moves first are acceptable, and the calls for them succeed. */
  ghost predicate Moves(kernel: seq<Bytes>, free: nat, lib: Library, m: nat) {
    m <= |kernel| && m <= free && m <= lib.ioctls && m <= lib.recvs && AllAcceptable(kernel[..m])
  }

  /** FIONREAD fails after j datagrams: r_ioctlsocket() does; or the kernel still reports bytes, a
      slot is free, and recv() fails or the next datagram is not acceptable. */
  ghost predicate FailsAt(kernel: seq<Bytes>, free: nat, lib: Library, j: nat) {
    && Moves(kernel, free, lib, j)
    && (|| j == lib.ioctls
        || (j < |kernel| && j < free && TotalBytes(kernel[j..]) > 0 && (j == lib.recvs || !Acceptable(kernel[j]))))
  }

  ghost predicate Fails(kernel: seq<Bytes>, free: nat, lib: Library) {
    exists j :: FailsAt(kernel, free, lib, j)
  }

  /** How the pumping loop ends after m datagrams: it fails, or there is no data or no slot left. */
  ghost predicate StopsAt(kernel: seq<Bytes>, free: nat, lib: Library, m: nat, failed: bool) {
    && Moves(kernel, free, lib, m)
    && if failed then FailsAt(kernel, free, lib, m)
       else m < lib.ioctls && (TotalBytes(kernel[m..]) == 0 || m == free)
  }

  /** What it leaves in the kernel: all the others, except for a datagram that is not acceptable. */
  function LeftWaiting(kernel: seq<Bytes>, lib: Library, m: nat, failed: bool): seq<Bytes>
    requires m <= |kernel|
  {
    if failed && m < lib.ioctls && m < lib.recvs && m < |kernel| then kernel[m + 1..] else kernel[m..]
  }

  lemma {:induction false} NothingAcceptable(s: seq<Bytes>)
    requires TotalBytes(s) == 0
    ensures forall i :: 0 <= i < |s| ==> !Acceptable(s[i])
    ensures Accepted(s) == []
  {
    if s != [] { NothingAcceptable(s[1..]); }
  }

  /** Where the loop stops and whether it fails there is decided by the datagrams waiting and the
      number of free slots. */
  lemma StopDecided(kernel: seq<Bytes>, free: nat, lib: Library, m: nat, failed: bool)
    requires StopsAt(kernel, free, lib, m, failed)
    ensures failed <==> Fails(kernel, free, lib)
  {
    hide Acceptable;
    forall j: nat | !failed ensures !FailsAt(kernel, free, lib, j) {
      if j < m {
        assert kernel[..m][j] == kernel[j];
      } else if m < j <= |kernel| && m < free {
        NothingAcceptable(kernel[m..]);
        assert kernel[m..][0] == kernel[m] == kernel[..j][m];
      }
    }
  }

  /** The loop that pumps until there is no data or no slot, or a pump fails. */
  method Drain(queue: SocketQueue, kernel: seq<Bytes>, lib: Library)
    returns (failed: bool, rest: seq<Bytes>, ghost m: int)
    requires queue.Arrays() && Idle(queue.View())
    modifies queue, queue.sizes, queue.ready, queue.data
    ensures queue.Arrays() && Drained(old(queue.View()), queue.View(), kernel, m)
    ensures StopsAt(kernel, old(CountFree(queue.sizes[..])), lib, m, failed)
    ensures rest == LeftWaiting(kernel, lib, m, failed)
  {
    hide Idle, Acceptable, TotalBytes, Drained, CountFree, ReadyPackets, FirstFree;
    rest, failed, m := kernel, false, 0;
    var pumps := 0;
    ghost var before := queue.View();
    NothingDrained(before, kernel);
    while true
      invariant queue.Arrays() && Idle(queue.View())
      invariant pumps == m && Moves(kernel, old(CountFree(queue.sizes[..])), lib, m) && rest == kernel[m..]
      invariant Drained(before, queue.View(), kernel, m)
      decreases |rest|
    {
      ghost var middle := queue.View();
      DrainedFree(before, middle, kernel, m);
      var r;
      r, rest := PumpWithoutBlocking(queue, rest, pumps == lib.ioctls, pumps == lib.recvs);
      if r < 0 {
        failed := true;
        FailedPumpDrains(before, middle, queue.View(), kernel, m);
        return;
      }
      if r == 0 { break; }
      DrainOneMore(before, middle, queue.View(), kernel, m);
      m, pumps := m + 1, pumps + 1;
    }
  }

  /** The accumulation loop over ready[0..n_ready). */
  method AddUp(queue: SocketQueue) returns (total: int)
    requires queue.Arrays() && WellFormed(queue.View())
    ensures AllAcceptable(ReadyPackets(queue.View()))
    ensures total == PayloadTotal(ReadyPackets(queue.View()))
  {
    total := 0;
    ghost var s := ReadyPackets(queue.View());
    for i := 0 to queue.nReady
      invariant total == PayloadTotal(s[..i])
    {
      assert s[..i + 1][..i] == s[..i] && s[i] == queue.data[queue.ready[i]];
      total := total + LittleEndian16(queue.data[queue.ready[i]], 25);
    }
    assert s[..queue.nReady] == s;
  }

  /** ioctlsocket(FIONREAD) by the only reading thread. It fails exactly when, after datagrams that
      are acceptable, a library call does or a datagram that is not acceptable has a slot free for
      it; otherwise it totals the payloads of everything ready once m datagrams have moved. */
  method Fionread(queue: SocketQueue, kernel: seq<Bytes>, lib: Library)
    returns (total: int, failed: bool, rest: seq<Bytes>, ghost m: int)
    requires queue.Arrays() && Idle(queue.View())
    modifies queue, queue.sizes, queue.ready, queue.data
    ensures queue.Arrays() && Drained(old(queue.View()), queue.View(), kernel, m)
    ensures StopsAt(kernel, old(CountFree(queue.sizes[..])), lib, m, failed)
    ensures rest == LeftWaiting(kernel, lib, m, failed)
    ensures failed <==> Fails(kernel, old(CountFree(queue.sizes[..])), lib)
    ensures !failed ==> AllAcceptable(ReadyPackets(queue.View())) && total == PayloadTotal(ReadyPackets(queue.View()))
  {
    total := 0;
    failed, rest, m := Drain(queue, kernel, lib);
    hide CountFree, TotalBytes, Acceptable;
    StopDecided(kernel, old(CountFree(queue.sizes[..])), lib, m, failed);
    if !failed {
      total := AddUp(queue);
    }
  }

  // ----- what the total means to readers -----

  lemma {:induction false} TotalSplits(s: seq<Bytes>)
    requires s != [] && forall i :: 0 <= i < |s| ==> |s[i]| >= HEADER
    ensures PayloadTotal(s) == Payload(s[0]) + PayloadTotal(s[1..])
  {
    if |s| > 1 {
      TotalSplits(s[..|s| - 1]);
      assert s[..|s| - 1][1..] == s[1..][..|s| - 2];
    }
  }

  /** FIONREAD counts what reads will return: nothing when nothing is ready, and a read takes from
      the total exactly what it returns, the payload of the oldest packet. */
  lemma ReadLowersTotal(q: Queue)
    requires WellFormed(q)
    ensures AllAcceptable(ReadyPackets(q))
    ensures q.ready == [] ==> PayloadTotal(ReadyPackets(q)) == 0
    ensures q.ready != [] ==>
              && WellFormed(Popped(q)) && AllAcceptable(ReadyPackets(Popped(q)))
              && PayloadTotal(ReadyPackets(Popped(q))) == PayloadTotal(ReadyPackets(q)) - (|ReadyPackets(q)[0]| - HEADER)
  {
    if q.ready != [] {
      PopKeepsWellFormed(q);
      hide LittleEndian16, PayloadTotal;
      TotalSplits(ReadyPackets(q));
    }
  }

  /** And the total is that of the packets' lengths without their headers. */
  lemma {:induction false} TotalIsLengths(s: seq<Bytes>)
    requires AllAcceptable(s)
    ensures PayloadTotal(s) + HEADER * |s| == TotalBytes(s)
  {
    if s != [] {
      TotalSplits(s);
      TotalIsLengths(s[1..]);
    }
  }

  lemma {:induction false} AcceptedSplit(s: seq<Bytes>, m: nat)
    requires m <= |s| && AllAcceptable(s[..m])
    ensures Accepted(s) == s[..m] + Accepted(s[m..])
  {
    hide Acceptable;
    if m == 0 {
      assert s[0..] == s;
    } else {
      assert s[..m][0] == s[0] && s[1..][..m - 1] == s[..m][1..] && s[1..][m - 1..] == s[m..];
      AcceptedSplit(s[1..], m - 1);
      assert s[..m] == [s[0]] + s[1..][..m - 1];
    }
  }

  /** Whether it fails or not, FIONREAD leaves the FIFO of ready packets and acceptable datagrams
      as it was. */
  lemma FionreadKeepsFifo(before: Queue, after: Queue, kernel: seq<Bytes>, lib: Library, m: int, failed: bool)
    requires Drained(before, after, kernel, m) && StopsAt(kernel, CountFree(before.sizes), lib, m, failed)
    ensures ReadyPackets(after) + Accepted(LeftWaiting(kernel, lib, m, failed)) == ReadyPackets(before) + Accepted(kernel)
  {
    hide Acceptable, CountFree, WellFormed, ReadyPackets, TotalBytes;
    AcceptedSplit(kernel, m);
    if LeftWaiting(kernel, lib, m, failed) != kernel[m..] { AcceptedFirst(kernel[m..]); }
  }

  /** When it does not fail, it has totalled as many packets from the head of the FIFO as there were
      ready packets and free slots - 32 if no pump is in flight - or all of them. */
  lemma FionreadTotalsHead(before: Queue, after: Queue, kernel: seq<Bytes>, lib: Library, m: int)
    requires Drained(before, after, kernel, m) && StopsAt(kernel, CountFree(before.sizes), lib, m, false)
    ensures var fifo, room := ReadyPackets(before) + Accepted(kernel), |before.ready| + CountFree(before.sizes);
            ReadyPackets(after) == fifo[..if |fifo| <= room then |fifo| else room]
    ensures AllAcceptable(ReadyPackets(after)) && PayloadTotal(ReadyPackets(after)) <= 32 * MAX_DATA_SIZE
  {
    PayloadBound(ReadyPackets(after));
    FionreadKeepsFifo(before, after, kernel, lib, m, false);
    if TotalBytes(kernel[m..]) == 0 { NothingAcceptable(kernel[m..]); }
    hide CountFree, Acceptable, ReadyPackets, PayloadTotal, WellFormed, TotalBytes, Accepted;
    var fifo := ReadyPackets(before) + Accepted(kernel);
    assert fifo[..|before.ready| + m] == ReadyPackets(after);
  }

  lemma {:induction false} PayloadBound(s: seq<Bytes>)
    requires AllAcceptable(s)
    ensures PayloadTotal(s) <= |s| * MAX_DATA_SIZE
  {
    if s != [] { PayloadBound(s[..|s| - 1]); }
  }
}
