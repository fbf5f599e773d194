/** A blocking read that finds no free slot: recv_packet() then repeats recv_pump() with the sockets
    lock held, and nothing that needs the lock happens any more. */
module RecvStarvation {
  import opened Options
  import opened Ipx
  import opened RecvQueue
  import opened RecvInterleavings

  /** The world, and the thread that holds the lock inside recv_packet()'s loop, if there is one. */
  datatype Process = Process(w: World, spinner: Option<nat>)

  const LAUNCH := Process(START, None)

  datatype Move =
    | Do(e: Event)
    | Enter(tid: nat)     // a blocking read finds nothing ready and no free slot
    | Spin                // its loop tests both once more

  /** recv() runs without the lock, and datagrams arrive without asking. */
  predicate NeedsLock(e: Event) {
    match e
    case Arrive(_) => false
    case Receive(_) => false
    case RecvError(_) => false
    case _ => true
  }

  /** What keeps recv_packet() in its loop. */
  ghost predicate NothingForIt(q: Queue) {
    q.ready == [] && FirstFree(q.sizes) == |q.sizes|
  }

  ghost predicate CanMove(p: Process, m: Move) {
    match m
    case Do(e) => Enabled(p.w, e) && (NeedsLock(e) ==> p.spinner == None)
    case Enter(t) => p.spinner == None && p.w.open && t !in p.w.pumps && NothingForIt(p.w.q)
    case Spin => p.spinner.Some?
  }

  ghost function Next(p: Process, m: Move): Process
    requires CanMove(p, m)
  {
    match m
    case Do(e) => p.(w := Apply(p.w, e))
    case Enter(t) => p.(spinner := Some(t))
    case Spin => if NothingForIt(p.w.q) then p else p.(spinner := None)
  }

  /** A thread spins only over a queue that holds nothing for it. */
  ghost predicate Sound(p: Process) {
    Inv(p.w) && (p.spinner.Some? ==> NothingForIt(p.w.q))
  }

  lemma UnlockedKeepsQueue(w: World, e: Event)
    requires Enabled(w, e) && !NeedsLock(e)
    ensures Apply(w, e).q.sizes == w.q.sizes && Apply(w, e).q.ready == w.q.ready
  {}

  lemma MoveKeepsSound(p: Process, m: Move)
    requires Sound(p) && CanMove(p, m)
    ensures Sound(Next(p, m))
    ensures p.spinner.Some? ==>
              Next(p, m).spinner == p.spinner && Next(p, m).w.q.sizes == p.w.q.sizes && Next(p, m).w.q.ready == p.w.q.ready
  {
    hide Inv, Enabled, Apply;
    if m.Do? {
      StepKeepsInv(p.w, m.e);
      if !NeedsLock(m.e) { UnlockedKeepsQueue(p.w, m.e); }
    }
  }

  ghost predicate CanHappen(p: Process, moves: seq<Move>)
    decreases |moves|
  {
    moves == [] || (CanMove(p, moves[0]) && CanHappen(Next(p, moves[0]), moves[1..]))
  }

  ghost function End(p: Process, moves: seq<Move>): Process
    requires CanHappen(p, moves)
    decreases |moves|
  {
    if moves == [] then p else End(Next(p, moves[0]), moves[1..])
  }

  lemma {:induction false} RunKeepsSound(p: Process, moves: seq<Move>)
    requires Sound(p) && CanHappen(p, moves)
    ensures Sound(End(p, moves))
    ensures p.spinner.Some? ==>
              && End(p, moves).spinner == p.spinner
              && End(p, moves).w.q.sizes == p.w.q.sizes && End(p, moves).w.q.ready == p.w.q.ready
    decreases |moves|
  {
    hide Sound, CanMove, Next;
    if moves != [] {
      MoveKeepsSound(p, moves[0]);
      RunKeepsSound(Next(p, moves[0]), moves[1..]);
    }
  }

  lemma LaunchSound()
    ensures Sound(LAUNCH)
  {
    StartInv();
  }

  /** Once a blocking read spins, no pump reclaims, nothing is read and the socket is not closed,
      whatever else happens. */
  lemma SpinsForEver(before: seq<Move>, after: seq<Move>, e: Event)
    requires CanHappen(LAUNCH, before) && End(LAUNCH, before).spinner.Some?
    requires CanHappen(End(LAUNCH, before), after) && NeedsLock(e)
    ensures !CanMove(End(End(LAUNCH, before), after), Do(e))
    ensures End(End(LAUNCH, before), after).spinner == End(LAUNCH, before).spinner
  {
    LaunchSound();
    RunKeepsSound(LAUNCH, before);
    RunKeepsSound(End(LAUNCH, before), after);
  }

  /** A blocking read of an open socket comes to that if and only if nothing is ready and 32 pumps
      are in flight, which then never return. */
  lemma SpinsIff(moves: seq<Move>, t: nat)
    requires CanHappen(LAUNCH, moves) && End(LAUNCH, moves).spinner == None
    requires End(LAUNCH, moves).w.open && t !in End(LAUNCH, moves).w.pumps
    ensures CanMove(End(LAUNCH, moves), Enter(t))
       <==> End(LAUNCH, moves).w.q.ready == [] && |End(LAUNCH, moves).w.pumps| == 32
  {
    LaunchSound();
    RunKeepsSound(LAUNCH, moves);
    CountFreeNone(End(LAUNCH, moves).w.q.sizes);
  }

  // ----- it can come to that -----

  /** Threads 0 to n - 1 each start a blocking read. */
  function Claims(n: nat): (moves: seq<Move>)
    ensures |moves| == n
  {
    seq(n, i requires 0 <= i < n => Do(Claim(i)))
  }

  lemma {:induction false} MoreMoves(p: Process, moves: seq<Move>, m: Move)
    requires CanHappen(p, moves) && CanMove(End(p, moves), m)
    ensures CanHappen(p, moves + [m]) && End(p, moves + [m]) == Next(End(p, moves), m)
    decreases |moves|
  {
    hide CanMove, Next;
    if moves == [] {
      assert moves + [m] == [m] && [m][1..] == [];
    } else {
      MoreMoves(Next(p, moves[0]), moves[1..], m);
      assert (moves + [m])[0] == moves[0] && (moves + [m])[1..] == moves[1..] + [m];
    }
  }

  lemma {:induction false} ManyReaders(n: nat)
    requires n <= 32
    ensures CanHappen(LAUNCH, Claims(n))
    ensures var p := End(LAUNCH, Claims(n));
            p.spinner == None && p.w.open && p.w.q.ready == [] && |p.w.pumps| == n && forall t :: t in p.w.pumps ==> t < n
  {
    hide CanMove, Next, CanHappen, End, Sound, Claims;
    if n == 0 {
      NoReaders();
    } else {
      ManyReaders(n - 1);
      ClaimsSnoc(n - 1);
      var moves, p := Claims(n - 1), End(LAUNCH, Claims(n - 1));
      LaunchSound();
      RunKeepsSound(LAUNCH, moves);
      ClaimPossible(p, n - 1);
      MoreMoves(LAUNCH, moves, Do(Claim(n - 1)));
    }
  }

  lemma NoReaders()
    ensures CanHappen(LAUNCH, Claims(0)) && End(LAUNCH, Claims(0)) == LAUNCH
    ensures LAUNCH.spinner == None && LAUNCH.w.open && LAUNCH.w.q.ready == [] && LAUNCH.w.pumps == map[]
  {}

  lemma ClaimsSnoc(n: nat)
    ensures Claims(n + 1) == Claims(n) + [Do(Claim(n))]
  {}

  lemma ClaimPossible(p: Process, t: nat)
    requires Sound(p) && p.spinner == None && p.w.open && p.w.q.ready == [] && |p.w.pumps| == t < 32
    requires forall u :: u in p.w.pumps ==> u < t
    ensures CanMove(p, Do(Claim(t)))
    ensures var p' := Next(p, Do(Claim(t)));
            && p'.spinner == None && p'.w.open && p'.w.q.ready == [] && |p'.w.pumps| == t + 1
            && forall u :: u in p'.w.pumps ==> u < t + 1
  {
    InvIsShaped(p.w);
    CountFreeNone(p.w.q.sizes);
    hide Inv, CountFree;
  }

  /** 32 threads block in reads of an empty socket; the read of a 33rd spins. */
  lemma ReaderThirtyThreeSpins()
    ensures CanHappen(LAUNCH, Claims(32) + [Enter(32)]) && End(LAUNCH, Claims(32) + [Enter(32)]).spinner == Some(32)
  {
    ManyReaders(32);
    SpinsIff(Claims(32), 32);
    MoreMoves(LAUNCH, Claims(32), Enter(32));
  }
}
