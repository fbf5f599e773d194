/** Registration with a DOSBox server: the connection steps of the router's main loop. */
module Registration {
  datatype Phase = Disconnected | Registering | Connected

  /** Whether the router's thread is still in its loop; a failing receive makes it leave. */
  datatype Life = Running | Aborted | Exited

  /** The timers of router.c, whether dosbox_server_addr has been filled in, and what became of the
      loop; then, as history, when the current attempt began, how many requests it has sent
      and how many of them before its timeout. Times are milliseconds. */
  datatype Link = Link(phase: Phase, nextAttempt: nat, nextRequest: nat, interval: nat, timeout: nat,
                       serverKnown: bool, life: Life, began: nat, sent: nat, sentInTime: nat)

  const START := Link(Disconnected, 0, 0, 0, 0, false, Running, 0, 0, 0)

  /** One pass of the loop: whether a datagram was read from the address the server has, whether
      reading then failed, whether the server's name resolves, and the three clock readings the
      pass may make. */
  datatype Pass = Pass(reply: bool, fails: bool, resolves: bool, t1: nat, t2: nat, t3: nat)

  function Min(a: nat, b: nat): nat { if a < b then a else b }

  /** A datagram from the server connects while registering, is traffic while connected, and
      meets abort() otherwise. */
  function Reply(l: Link): Link {
    match l.phase
    case Registering => l.(phase := Connected)
    case Connected => l
    case Disconnected => l.(life := Aborted)
  }

  /** Reading the socket, until there is nothing more or it fails. */
  function Receive(l: Link, p: Pass): Link {
    if l.life != Running then l
    else
      var r := if p.reply && l.serverKnown then Reply(l) else l;
      if r.life == Running && p.fails then r.(life := Exited) else r
  }

  /** A new attempt, or a later retry when the name does not resolve. */
  function Attempt(l: Link, p: Pass): Link {
    if l.phase != Disconnected || p.t1 < l.nextAttempt then l
    else if p.resolves then
      Link(Registering, l.nextAttempt, 0, 250, p.t2 + 30000, true, l.life, p.t2, 0, 0)
    else l.(nextAttempt := p.t2 + 10000)
  }

  /** The timeout check, and - even in the pass that times out - the request if one is due. */
  function Request(l: Link, p: Pass): Link {
    if l.phase != Registering then l
    else
      var timedOut := p.t3 >= l.timeout;
      var m := if timedOut then l.(phase := Disconnected) else l;
      if p.t3 < l.nextRequest then m
      else
        m.(nextRequest := p.t3 + l.interval, interval := Min(l.interval * 2, 8000),
           sent := l.sent + 1, sentInTime := l.sentInTime + if timedOut then 0 else 1)
  }

  function Step(l: Link, p: Pass): Link {
    var r := Receive(l, p);
    if r.life != Running then r else Request(Attempt(r, p), p)
  }

  class Router {
    var dosboxState: Phase
    var nextConnectionAttemptAt: nat
    var nextRegistrationRequestAt: nat
    var registrationRetryIntervalMs: nat
    var registrationTimeoutAt: nat
    var serverKnown: bool
    var life: Life
    ghost var began: nat
    ghost var sent: nat
    ghost var sentInTime: nat

    ghost function View(): Link
      reads this
    {
      Link(dosboxState, nextConnectionAttemptAt, nextRegistrationRequestAt, registrationRetryIntervalMs,
           registrationTimeoutAt, serverKnown, life, began, sent, sentInTime)
    }

    /** Reading the socket: what a datagram from the server does, and the end of the loop. */
    method ReceiveReplies(p: Pass)
      modifies this
      ensures View() == Receive(old(View()), p)
    {
      if life != Running { return; }
      if p.reply && serverKnown {
        if dosboxState == Registering {
          dosboxState := Connected;
        } else if dosboxState == Connected {
        } else {
          life := Aborted;
          return;
        }
      }
      if p.fails { life := Exited; }
    }

    /** The step for a disconnected link: an attempt, once it is due. */
    method BeginAttempt(p: Pass)
      modifies this
      ensures View() == Attempt(old(View()), p)
    {
      if dosboxState == Disconnected {
        if p.t1 >= nextConnectionAttemptAt {
          if p.resolves {
            nextRegistrationRequestAt := 0;
            registrationRetryIntervalMs := 250;
            registrationTimeoutAt := p.t2 + 30000;
            dosboxState := Registering;
            serverKnown := true;
            began, sent, sentInTime := p.t2, 0, 0;
          } else {
            nextConnectionAttemptAt := p.t2 + 10000;
          }
        }
      }
    }

    /** The step for a link that is registering: the timeout, and a request, once one is due. */
    method SendRequest(p: Pass) returns (requested: bool)
      modifies this
      ensures View() == Request(old(View()), p)
      ensures requested <==> old(dosboxState) == Registering && p.t3 >= old(nextRegistrationRequestAt)
    {
      requested := false;
      if dosboxState == Registering {
        var timedOut := p.t3 >= registrationTimeoutAt;
        if timedOut {
          dosboxState := Disconnected;
        }
        if p.t3 >= nextRegistrationRequestAt {
          requested := true;
          nextRegistrationRequestAt := p.t3 + registrationRetryIntervalMs;
          registrationRetryIntervalMs := registrationRetryIntervalMs * 2;
          registrationRetryIntervalMs := Min(registrationRetryIntervalMs, 8000);
          sent := sent + 1;
          sentInTime := sentInTime + if timedOut then 0 else 1;
        }
      }
    }

    /** One pass of router_main(); `requested` says whether it sends a registration request. */
    method LoopPass(p: Pass) returns (requested: bool)
      modifies this
      ensures View() == Step(old(View()), p)
      ensures var l := Attempt(Receive(old(View()), p), p);
              requested <==> l.life == Running && l.phase == Registering && p.t3 >= l.nextRequest
    {
      ReceiveReplies(p);
      if life != Running { return false; }
      BeginAttempt(p);
      requested := SendRequest(p);
    }
  }

  // ----- the backoff over whole runs -----

  /** The gap after the k-th request: min(250 * 2^k, 8000) ms. */
  function Gap(k: nat): nat {
    if k == 0 then 250 else Min(2 * Gap(k - 1), 8000)
  }

  /** The least time from the start of an attempt to its n-th retry. */
  function Elapsed(n: nat): nat {
    if n == 0 then 0 else Elapsed(n - 1) + Gap(n - 1)
  }

  function Power(k: nat): nat { if k == 0 then 1 else 2 * Power(k - 1) }

  lemma {:induction false} GapIsCappedDoubling(k: nat)
    ensures Gap(k) == Min(250 * Power(k), 8000)
  {
    if k > 0 { GapIsCappedDoubling(k - 1); }
  }

  lemma {:induction false} ElapsedGrows(m: nat, n: nat)
    requires m <= n
    ensures Elapsed(m) <= Elapsed(n)
  {
    if m < n { ElapsedGrows(m, n - 1); }
  }

  /** While an attempt runs its retry timer has backed off as far as its requests so far demand. */
  ghost predicate BackedOff(l: Link) {
    && l.sentInTime <= 8 && l.sent <= 9
    && (l.phase == Registering ==>
          && l.timeout == l.began + 30000
          && l.interval == Gap(l.sent) && l.sent == l.sentInTime
          && (l.sent > 0 ==> l.nextRequest >= l.began + Elapsed(l.sent)))
  }

  lemma RequestKeepsBackoff(l: Link, p: Pass)
    requires BackedOff(l) && (l.phase == Registering ==> l.began <= p.t3)
    ensures BackedOff(Request(l, p))
  {
    if l.phase == Registering && p.t3 >= l.nextRequest {
      if l.sent >= 8 && p.t3 < l.timeout {
        ElapsedGrows(8, l.sent);
        assert false;
      }
    }
  }

  lemma StepKeepsBackoff(l: Link, p: Pass)
    requires BackedOff(l) && l.began <= p.t3 && p.t2 <= p.t3
    ensures BackedOff(Step(l, p))
  {
    hide Request;
    RequestKeepsBackoff(Attempt(Receive(l, p), p), p);
  }

  ghost predicate Clocked(run: seq<Pass>) {
    && (forall i :: 0 <= i < |run| ==> run[i].t1 <= run[i].t2 <= run[i].t3)
    && forall i, j :: 0 <= i < j < |run| ==> run[i].t3 <= run[j].t1
  }

  function After(run: seq<Pass>): Link {
    if run == [] then START else Step(After(run[..|run| - 1]), run[|run| - 1])
  }

  lemma {:induction false} BeganBefore(run: seq<Pass>, t: nat)
    requires Clocked(run) && (run != [] ==> run[|run| - 1].t3 <= t)
    ensures After(run).began <= t
  {
    if run != [] { BeganBefore(run[..|run| - 1], t); }
  }

  /** In every run, whatever the timing of the passes and the replies, each attempt sends at most
      8 requests before its timeout and at most 9 in all. */
  lemma {:induction false} RequestsPerAttempt(run: seq<Pass>)
    requires Clocked(run)
    ensures BackedOff(After(run)) && After(run).sentInTime <= 8 && After(run).sent <= 9
  {
    hide Step;
    if run != [] {
      var prefix, p := run[..|run| - 1], run[|run| - 1];
      RequestsPerAttempt(prefix);
      BeganBefore(prefix, p.t3);
      StepKeepsBackoff(After(prefix), p);
    }
  }

  /** A pass at time t in which no reply has come. */
  function Silent(t: nat): Pass { Pass(false, false, true, t, t, t) }

  lemma OnePassMore(run: seq<Pass>, l: Link, t: nat)
    requires Clocked(run) && After(run) == l && (run != [] ==> run[|run| - 1].t3 <= t)
    ensures Clocked(run + [Silent(t)]) && After(run + [Silent(t)]) == Step(l, Silent(t))
  {
    assert (run + [Silent(t)])[..|run|] == run;
    forall i | 0 <= i < |run| ensures run[i].t3 <= t {
      if i < |run| - 1 { assert run[i].t3 <= run[|run| - 1].t1; }
    }
  }

  /** Both bounds are reached: a silent server polled exactly when each retry falls due gets 8
      requests in time, and a ninth from the pass that times the attempt out. */
  lemma NineRequestsHappen() returns (run: seq<Pass>)
    ensures Clocked(run) && run != [] && run[|run| - 1].t3 == 31750
    ensures After(run) == Link(Disconnected, 0, 39750, 8000, 30000, true, Running, 0, 9, 8)
  {
    hide Clocked, After;
    run := [];
    assert Clocked(run) && After(run) == START by { NoPassYet(run); }
    OnePassMore(run, START, 0);
    run := run + [Silent(0)];
    OnePassMore(run, Link(Registering, 0, 250, 500, 30000, true, Running, 0, 1, 1), 250);
    run := run + [Silent(250)];
    OnePassMore(run, Link(Registering, 0, 750, 1000, 30000, true, Running, 0, 2, 2), 750);
    run := run + [Silent(750)];
    OnePassMore(run, Link(Registering, 0, 1750, 2000, 30000, true, Running, 0, 3, 3), 1750);
    run := run + [Silent(1750)];
    OnePassMore(run, Link(Registering, 0, 3750, 4000, 30000, true, Running, 0, 4, 4), 3750);
    run := run + [Silent(3750)];
    OnePassMore(run, Link(Registering, 0, 7750, 8000, 30000, true, Running, 0, 5, 5), 7750);
    run := run + [Silent(7750)];
    OnePassMore(run, Link(Registering, 0, 15750, 8000, 30000, true, Running, 0, 6, 6), 15750);
    run := run + [Silent(15750)];
    OnePassMore(run, Link(Registering, 0, 23750, 8000, 30000, true, Running, 0, 7, 7), 23750);
    run := run + [Silent(23750)];
    OnePassMore(run, Link(Registering, 0, 31750, 8000, 30000, true, Running, 0, 8, 8), 31750);
    run := run + [Silent(31750)];
  }

  lemma NoPassYet(run: seq<Pass>)
    requires run == []
    ensures Clocked(run) && After(run) == START
  {}

  lemma {:induction false} AttemptWasDue(run: seq<Pass>)
    requires Clocked(run) && After(run).phase == Registering && After(run).life == Running
    ensures After(run).nextAttempt <= After(run).began
  {
    if run != [] {
      var prefix, p := run[..|run| - 1], run[|run| - 1];
      if After(prefix).phase == Registering { AttemptWasDue(prefix); }
    }
  }

  // ----- when attempts are made, and when requests come too late -----

  /** What pass i finds once it has read the socket. */
  function Before(run: seq<Pass>, i: nat): Link
    requires i < |run|
  {
    Receive(After(run[..i]), run[i])
  }

  /** Pass i looks the server's name up. */
  predicate Tries(run: seq<Pass>, i: nat)
    requires i < |run|
  {
    Before(run, i).life == Running && Before(run, i).phase == Disconnected && run[i].t1 >= Before(run, i).nextAttempt
  }

  /** Pass i begins an attempt; and it fails to. */
  predicate Begins(run: seq<Pass>, i: nat)
    requires i < |run|
  {
    Tries(run, i) && run[i].resolves
  }

  predicate FailsToResolve(run: seq<Pass>, i: nat)
    requires i < |run|
  {
    Tries(run, i) && !run[i].resolves
  }

  /** Pass i finds an attempt over its 30 s and still sends a request for it. */
  predicate SendsLate(run: seq<Pass>, i: nat)
    requires i < |run|
  {
    var l := Attempt(Before(run, i), run[i]);
    l.life == Running && l.phase == Registering && run[i].t3 >= l.timeout && run[i].t3 >= l.nextRequest
  }

  lemma PrefixSame(run: seq<Pass>, n: nat, i: nat)
    requires i < n <= |run|
    ensures Before(run[..n], i) == Before(run, i) && run[..n][i] == run[i]
  {
    hide After, Receive;
    assert run[..n][..i] == run[..i];
  }

  /** nextAttempt is ten seconds after the last name that failed to resolve. */
  lemma {:induction false} NextAttemptIff(run: seq<Pass>, t: nat)
    requires Clocked(run)
    ensures t < After(run).nextAttempt <==> exists i :: 0 <= i < |run| && FailsToResolve(run, i) && t < run[i].t2 + 10000
  {
    if run != [] {
      var last := |run| - 1;
      NextAttemptIff(run[..last], t);
      NextAttemptStep(After(run[..last]), run[last]);
      forall i | 0 <= i < last ensures FailsToResolve(run[..last], i) <==> FailsToResolve(run, i) {
        PrefixSame(run, last, i);
      }
    }
  }

  lemma NextAttemptStep(l: Link, p: Pass)
    ensures var r := Receive(l, p);
            Step(l, p).nextAttempt ==
              if r.life == Running && r.phase == Disconnected && p.t1 >= r.nextAttempt && !p.resolves then p.t2 + 10000
              else l.nextAttempt
  {}

  /** A disconnected pass leaves the server untried if and only if less than ten seconds have gone
      by since its name last failed to resolve: no other failure makes the router wait. */
  lemma UntriedIff(run: seq<Pass>, p: Pass)
    requires Clocked(run) && Receive(After(run), p).life == Running && Receive(After(run), p).phase == Disconnected
    ensures Attempt(Receive(After(run), p), p).phase == Registering
       <==> p.resolves && !exists i :: 0 <= i < |run| && FailsToResolve(run, i) && p.t1 < run[i].t2 + 10000
    ensures !Tries(run + [p], |run|)
       <==> exists i :: 0 <= i < |run| && FailsToResolve(run, i) && p.t1 < run[i].t2 + 10000
  {
    assert (run + [p])[..|run|] == run;
    NextAttemptIff(run, p.t1);
  }

  /** An attempt has sent a request outside its 30 s if and only if the pass that timed it out found
      one due; that request is the last of the attempt. */
  lemma {:induction false} LateRequestIff(run: seq<Pass>)
    requires Clocked(run)
    ensures After(run).sent == After(run).sentInTime || After(run).sent == After(run).sentInTime + 1
    ensures After(run).sent > After(run).sentInTime
       <==> exists i :: 0 <= i < |run| && SendsLate(run, i) && forall j :: i < j < |run| ==> !Begins(run, j)
  {
    if run != [] {
      var last := |run| - 1;
      var l, p := After(run[..last]), run[last];
      LateRequestIff(run[..last]);
      RequestsPerAttempt(run[..last]);
      LateStep(l, p);
      forall i | 0 <= i < last
        ensures SendsLate(run[..last], i) <==> SendsLate(run, i)
        ensures Begins(run[..last], i) <==> Begins(run, i)
      {
        PrefixSame(run, last, i);
      }
      LateSoFar(run);
    }
  }

  lemma LateSoFar(run: seq<Pass>)
    requires run != []
    requires var last := |run| - 1;
             forall i :: 0 <= i < last ==> (SendsLate(run[..last], i) <==> SendsLate(run, i)) && (Begins(run[..last], i) <==> Begins(run, i))
    ensures var last := |run| - 1;
            (exists i :: 0 <= i < |run| && SendsLate(run, i) && forall j :: i < j < |run| ==> !Begins(run, j))
            <==> SendsLate(run, last)
                 || (!Begins(run, last)
                     && exists i :: 0 <= i < last && SendsLate(run[..last], i) && forall j :: i < j < last ==> !Begins(run[..last], j))
  {
    hide SendsLate, Begins;
    var last := |run| - 1;
    if i :| 0 <= i < last && SendsLate(run[..last], i) && forall j :: i < j < last ==> !Begins(run[..last], j) {
      if !Begins(run, last) { assert SendsLate(run, i) && forall j :: i < j < |run| ==> !Begins(run, j); }
    }
  }

  lemma LateStep(l: Link, p: Pass)
    requires BackedOff(l)
    ensures var r := Receive(l, p);
            var a := Attempt(r, p);
            var begins := r.life == Running && r.phase == Disconnected && p.t1 >= r.nextAttempt && p.resolves;
            var late := a.life == Running && a.phase == Registering && p.t3 >= a.timeout && p.t3 >= a.nextRequest;
            Step(l, p).sent - Step(l, p).sentInTime ==
              if late then 1 else if begins then 0 else l.sent - l.sentInTime
  {}

  /** The ten seconds between connection attempts are waited only after a name that does not
      resolve: an attempt that timed out is followed by another in the next pass. */
  lemma RetriesAtOnce(run: seq<Pass>, p: Pass, next: Pass)
    requires Clocked(run + [p, next]) && After(run).phase == Registering && After(run).life == Running
    requires p.t3 >= After(run).timeout && !p.reply && !p.fails && !next.reply && !next.fails && next.resolves
    ensures After(run + [p]).phase == Disconnected
    ensures After(run + [p, next]).began == next.t2 && After(run + [p, next]).timeout == next.t2 + 30000
  {
    hide Step;
    assert (run + [p])[..|run|] == run && (run + [p, next])[..|run| + 1] == run + [p];
    assert forall i :: 0 <= i < |run| ==> (run + [p, next])[i] == run[i];
    assert (run + [p, next])[|run|] == p && (run + [p, next])[|run| + 1] == next;
    AttemptWasDue(run);
    BeganBefore(run, p.t3);
    TimedOutStep(After(run), p);
    AttemptAgain(After(run + [p]), next);
  }

  lemma TimedOutStep(l: Link, p: Pass)
    requires l.phase == Registering && l.life == Running && p.t3 >= l.timeout && !p.reply && !p.fails
    ensures Step(l, p).phase == Disconnected && Step(l, p).life == Running && Step(l, p).nextAttempt == l.nextAttempt
  {}

  lemma AttemptAgain(l: Link, p: Pass)
    requires l.phase == Disconnected && l.life == Running && p.t1 >= l.nextAttempt && !p.reply && !p.fails && p.resolves
    ensures Step(l, p).began == p.t2 && Step(l, p).timeout == p.t2 + 30000
  {}

  // ----- the abort() -----

  /** Pass i finds an attempt over its 30 s. */
  predicate TimesOut(run: seq<Pass>, i: nat)
    requires i < |run|
  {
    var l := Attempt(Before(run, i), run[i]);
    l.life == Running && l.phase == Registering && run[i].t3 >= l.timeout
  }

  /** Some pass before the n-th timed an attempt out, and none since began one. */
  ghost predicate TimedOutSince(run: seq<Pass>, n: nat)
    requires n <= |run|
  {
    exists i :: 0 <= i < n && TimesOut(run, i) && forall j :: i < j < n ==> !Begins(run, j)
  }

  lemma SinceStep(run: seq<Pass>, n: nat)
    requires n < |run|
    ensures TimedOutSince(run, n + 1) <==> TimesOut(run, n) || (!Begins(run, n) && TimedOutSince(run, n))
  {
    hide TimesOut, Begins;
    if i :| 0 <= i < n && TimesOut(run, i) && forall j :: i < j < n ==> !Begins(run, j) {
      if !Begins(run, n) { assert forall j :: i < j < n + 1 ==> !Begins(run, j); }
    }
  }

  lemma SincePrefix(run: seq<Pass>, n: nat)
    requires n <= |run|
    ensures TimedOutSince(run[..n], n) <==> TimedOutSince(run, n)
  {
    forall i | 0 <= i < n
      ensures TimesOut(run[..n], i) <==> TimesOut(run, i)
      ensures Begins(run[..n], i) <==> Begins(run, i)
    {
      PrefixSame(run, n, i);
    }
    hide TimesOut, Begins;
  }

  lemma {:induction false} KnownOnceTried(run: seq<Pass>)
    ensures After(run).phase != Disconnected ==> After(run).serverKnown
  {
    if run != [] { KnownOnceTried(run[..|run| - 1]); }
  }

  /** While the loop runs, the server is known and the link down if and only if some earlier pass
      timed an attempt out and no later one began another. */
  lemma {:induction false} DownIff(run: seq<Pass>)
    requires After(run).life == Running
    ensures After(run).serverKnown && After(run).phase == Disconnected <==> TimedOutSince(run, |run|)
  {
    if run != [] {
      var last := |run| - 1;
      KnownOnceTried(run[..last]);
      DownIff(run[..last]);
      SincePrefix(run, last);
      SinceStep(run, last);
      hide After, TimedOutSince;
    }
  }

  // ----- the connection -----

  /** Some pass before the n-th began an attempt that none has timed out. */
  ghost predicate AttemptSince(run: seq<Pass>, n: nat)
    requires n <= |run|
  {
    exists i :: 0 <= i < n && Begins(run, i) && forall k :: i <= k < n ==> !TimesOut(run, k)
  }

  lemma AttemptStep(run: seq<Pass>, n: nat)
    requires n < |run|
    ensures AttemptSince(run, n + 1) <==> !TimesOut(run, n) && (Begins(run, n) || AttemptSince(run, n))
  {
    hide TimesOut, Begins;
    if !TimesOut(run, n) {
      if Begins(run, n) { assert forall k :: n <= k < n + 1 ==> !TimesOut(run, k); }
      if i :| 0 <= i < n && Begins(run, i) && forall k :: i <= k < n ==> !TimesOut(run, k) {
        assert forall k :: i <= k < n + 1 ==> !TimesOut(run, k);
      }
    }
  }

  lemma AttemptPrefix(run: seq<Pass>, n: nat)
    requires n <= |run|
    ensures AttemptSince(run[..n], n) <==> AttemptSince(run, n)
  {
    forall i | 0 <= i < n
      ensures TimesOut(run[..n], i) <==> TimesOut(run, i)
      ensures Begins(run[..n], i) <==> Begins(run, i)
    {
      PrefixSame(run, n, i);
    }
    hide TimesOut, Begins;
  }

  /** While the loop runs, the link is up or coming up if and only if some pass began an attempt and
      none has timed it out since. */
  lemma {:induction false} UpIff(run: seq<Pass>)
    requires After(run).life == Running
    ensures After(run).phase != Disconnected <==> AttemptSince(run, |run|)
  {
    if run != [] {
      var last := |run| - 1;
      UpIff(run[..last]);
      AttemptPrefix(run, last);
      AttemptStep(run, last);
      hide After, AttemptSince;
    }
  }

  /** Pass i reads a datagram from the server while an attempt is under way or has succeeded. */
  ghost predicate ReadsReply(run: seq<Pass>, i: nat)
    requires i < |run|
  {
    run[i].reply && AttemptSince(run, i)
  }

  lemma ConnectStep(l: Link, p: Pass)
    requires Step(l, p).life == Running && (l.phase != Disconnected ==> l.serverKnown)
    ensures Step(l, p).phase == Connected <==> l.phase == Connected || (p.reply && l.phase == Registering)
  {}

  /** While the loop runs, the link is connected if and only if some pass read a datagram from the
      server after an earlier one began an attempt that no pass between had timed out. */
  lemma {:induction false} ConnectedIff(run: seq<Pass>)
    requires After(run).life == Running
    ensures After(run).phase == Connected <==> exists j :: 0 <= j < |run| && ReadsReply(run, j)
  {
    hide Step, AttemptSince;
    if run != [] {
      var last := |run| - 1;
      var l := After(run[..last]);
      LifeStep(l, run[last]);
      KnownOnceTried(run[..last]);
      ConnectedIff(run[..last]);
      UpIff(run[..last]);
      ConnectStep(l, run[last]);
      AttemptPrefix(run, last);
      forall j | 0 <= j < last ensures ReadsReply(run[..last], j) <==> ReadsReply(run, j) {
        AttemptPrefix(run, j);
        AttemptPrefix(run[..last], j);
        assert run[..last][..j] == run[..j] && run[..last][j] == run[j];
      }
      assert ReadsReply(run, last) <==> run[last].reply && l.phase != Disconnected;
      if j :| 0 <= j < last && ReadsReply(run[..last], j) { assert ReadsReply(run, j); }
      if j :| 0 <= j < |run| && ReadsReply(run, j) {
        if j < last { assert ReadsReply(run[..last], j); }
      }
    }
  }

  /** And it stays so: from then on no request is sent and nothing aborts the loop, whatever the
      passes read and however late they come. */
  lemma {:induction false} ConnectedForGood(run: seq<Pass>, more: seq<Pass>)
    requires After(run).life == Running && After(run).phase == Connected
    ensures After(run + more) == After(run).(life := After(run + more).life)
    ensures After(run + more).life == if exists i :: 0 <= i < |more| && more[i].fails then Exited else Running
  {
    hide Step;
    if more == [] {
      assert run + more == run;
    } else {
      var last := |more| - 1;
      ConnectedForGood(run, more[..last]);
      assert (run + more)[..|run + more| - 1] == run + more[..last];
      assert forall i :: 0 <= i < last ==> more[..last][i] == more[i];
      ConnectedStep(After(run + more[..last]), more[last]);
    }
  }

  lemma ConnectedStep(l: Link, p: Pass)
    requires l.phase == Connected
    ensures Step(l, p) == if l.life == Running && p.fails then l.(life := Exited) else l
  {}

  lemma LifeStep(l: Link, p: Pass)
    ensures Step(l, p).life ==
              if l.life != Running then l.life
              else if p.reply && l.serverKnown && l.phase == Disconnected then Aborted
              else if p.fails then Exited else Running
  {}

  lemma {:induction false} LifeTold(run: seq<Pass>)
    ensures After(run).life == Running ==> forall i :: 0 <= i < |run| ==> !run[i].fails
    ensures After(run).life == Exited ==> exists i :: 0 <= i < |run| && run[i].fails
  {
    hide Step;
    if run != [] {
      var last := |run| - 1;
      LifeTold(run[..last]);
      LifeStep(After(run[..last]), run[last]);
      assert forall i :: 0 <= i < last ==> run[..last][i] == run[i];
    }
  }

  /** Pass i reads a datagram from the server after an attempt was timed out and before another
      began, in a loop that no failing receive has ended. */
  ghost predicate ReadsTooLate(run: seq<Pass>, i: nat)
    requires i < |run|
  {
    run[i].reply && TimedOutSince(run, i) && forall j :: 0 <= j < i ==> !run[j].fails
  }

  /** A run meets the abort() if and only if one of its passes reads a datagram from the server
      between an attempt's timeout and the beginning of the next. */
  lemma {:induction false} AbortedIff(run: seq<Pass>)
    ensures After(run).life == Aborted <==> exists i :: 0 <= i < |run| && ReadsTooLate(run, i)
  {
    hide Step, TimedOutSince;
    if run != [] {
      var last := |run| - 1;
      var l := After(run[..last]);
      AbortedIff(run[..last]);
      LifeStep(l, run[last]);
      LifeTold(run[..last]);
      if l.life == Running { DownIff(run[..last]); }
      SincePrefix(run, last);
      forall i | 0 <= i < last ensures ReadsTooLate(run[..last], i) <==> ReadsTooLate(run, i) {
        SincePrefix(run, i);
        SincePrefix(run[..last], i);
        assert run[..last][..i] == run[..i] && forall j :: 0 <= j <= i ==> run[..last][j] == run[j];
      }
      if i :| 0 <= i < last && ReadsTooLate(run[..last], i) { assert ReadsTooLate(run, i); }
      assert l.life == Running ==> (ReadsTooLate(run, last) <==> run[last].reply && l.serverKnown && l.phase == Disconnected);
      assert l.life == Exited ==> !ReadsTooLate(run, last);
    }
  }

  /** The abort() marked unreachable is reached by a reply that is read just after the timeout. */
  lemma LateReplyAborts() returns (run: seq<Pass>)
    ensures Clocked(run) && After(run).life == Aborted
  {
    var silent := NineRequestsHappen();
    var late := Pass(true, false, true, 31751, 31751, 31751);
    run := silent + [late];
    assert run[..|silent|] == silent;
    forall i | 0 <= i < |silent| ensures silent[i].t3 <= 31750 {
      if i < |silent| - 1 { assert silent[i].t3 <= silent[|silent| - 1].t1; }
    }
  }
}
