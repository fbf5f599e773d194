/** The rate limiter under several threads: they share it under the sockets lock, but each sleeps
    its own delay outside the lock. */
module RateLimitSenders {
  import opened RateLimit
  import opened RateLimitProofs

  /** One sendto() of one of the threads, in the order in which they held the lock. */
  datatype Sending = Sending(sender: nat, add: u32, time: u32)

  function CallsOf(run: seq<Sending>): (c: seq<Call>)
    ensures |c| == |run|
    ensures forall i :: 0 <= i < |c| ==> c[i] == Call(run[i].add, run[i].time)
  {
    seq(|run|, i requires 0 <= i < |run| => Call(run[i].add, run[i].time))
  }

  lemma CallsOfPrefix(run: seq<Sending>, k: nat)
    requires k <= |run|
    ensures CallsOf(run[..k]) == CallsOf(run)[..k]
  {}

  /** The limiter's total after a run, without wrap-around. */
  function Window(run: seq<Sending>): int
    requires run != []
  {
    AddsBetween(CallsOf(run), Run(CallsOf(run)).base, run[|run| - 1].time + 1)
  }

  /** The clock does not run backwards, there are `senders` threads, and each of them makes its
      next call only when the delay of each of its calls is over. */
  ghost predicate Disciplined(run: seq<Sending>, senders: nat, max: u32, most: nat)
    requires max > 0
  {
    && NonDecreasingClock(CallsOf(run))
    && (forall i :: 0 <= i < |run| ==> run[i].sender < senders && run[i].add <= most)
    && forall i, j :: 0 <= i < j < |run| && run[i].sender == run[j].sender ==>
         run[j].time >= run[i].time + DelayAt(CallsOf(run), i, max)
  }

  lemma DisciplinedPrefix(run: seq<Sending>, senders: nat, max: u32, most: nat, k: nat)
    requires max > 0 && Disciplined(run, senders, max, most) && k <= |run|
    ensures Disciplined(run[..k], senders, max, most)
  {
    CallsOfPrefix(run, k);
    forall i | 0 <= i < k ensures DelayAt(CallsOf(run[..k]), i, max) == DelayAt(CallsOf(run), i, max) {
      assert CallsOf(run[..k])[..i + 1] == CallsOf(run)[..i + 1];
    }
  }

  lemma {:induction false} AddsConcat(calls: seq<Call>, m: nat, lo: int, hi: int)
    requires m <= |calls|
    ensures AddsBetween(calls, lo, hi) == AddsBetween(calls[..m], lo, hi) + AddsBetween(calls[m..], lo, hi)
  {
    if m == |calls| {
      assert calls[..m] == calls && calls[m..] == [];
    } else {
      var last := |calls| - 1;
      AddsConcat(calls[..last], m, lo, hi);
      assert calls[..last][..m] == calls[..m] && calls[m..][..last - m] == calls[..last][m..];
    }
  }

  lemma {:induction false} BaseMonotone(calls: seq<Call>, k: nat)
    requires NonDecreasingClock(calls) && 0 < k <= |calls|
    ensures Run(calls[..k]).base <= Run(calls).base
  {
    if k == |calls| {
      assert calls[..k] == calls;
    } else {
      var prefix := calls[..|calls| - 1];
      assert prefix[..k] == calls[..k];
      BaseMonotone(prefix, k);
      WindowInvariant(prefix);
      BaseMovesForward(Run(prefix), calls[|calls| - 1].time);
    }
  }

  /** What the window at the end of a run still holds of a prefix is no more than the prefix's own. */
  lemma PrefixInWindow(run: seq<Sending>, k: nat, max: u32)
    requires NonDecreasingClock(CallsOf(run)) && 0 < k <= |run|
    ensures AddsBetween(CallsOf(run)[..k], Run(CallsOf(run)).base, run[|run| - 1].time + 1) <= Window(run[..k])
  {
    hide Run, MeasuresWindow, AddsBetween;
    var calls := CallsOf(run);
    var now: int, earlier: int := run[|run| - 1].time, run[k - 1].time;
    var base: int, own: int := Run(calls).base, Run(calls[..k]).base;
    CallsOfPrefix(run, k);
    BaseMonotone(calls, k);
    BaseInTime(calls);
    assert calls[k - 1].time <= calls[|calls| - 1].time;
    if base <= earlier + 1 {
      AddsSplit(calls[..k], base, earlier + 1, now + 1);
      AddsNoneAfter(calls[..k], earlier, now);
      AddsWider(calls[..k], base, own, earlier + 1);
    } else {
      AddsNone(calls[..k], base, now + 1);
      AddsNonNegative(calls[..k], own, earlier + 1);
    }
  }

  lemma BaseInTime(calls: seq<Call>)
    requires NonDecreasingClock(calls) && calls != []
    ensures Run(calls).base <= calls[|calls| - 1].time < Run(calls).base + 1000
  {
    WindowInvariant(calls);
  }

  lemma AddsNoneAfter(calls: seq<Call>, last: int, now: int)
    requires NonDecreasingClock(calls) && calls != [] && calls[|calls| - 1].time == last <= now
    ensures AddsBetween(calls, last + 1, now + 1) == 0
  {
    AddsNone(calls, last + 1, now + 1);
  }

  // ----- calls of different threads -----

  /** The threads whose calls fall in [lo, hi). */
  function SendersIn(run: seq<Sending>, lo: int, hi: int): set<nat> {
    set i | 0 <= i < |run| && lo <= run[i].time < hi :: run[i].sender
  }

  ghost predicate OneEach(run: seq<Sending>, lo: int, hi: int) {
    forall i, j :: 0 <= i < j < |run| && lo <= run[i].time < hi && lo <= run[j].time < hi ==> run[i].sender != run[j].sender
  }

  lemma SendersSnoc(run: seq<Sending>, lo: int, hi: int)
    requires run != []
    ensures var last := |run| - 1;
            SendersIn(run, lo, hi)
            == SendersIn(run[..last], lo, hi) + if lo <= run[last].time < hi then {run[last].sender} else {}
  {
    var last := |run| - 1;
    var prefix := run[..last];
    var s, s' := SendersIn(prefix, lo, hi), SendersIn(run, lo, hi);
    forall x | x in s' ensures x in s || (lo <= run[last].time < hi && x == run[last].sender) {
      var i :| 0 <= i < |run| && lo <= run[i].time < hi && run[i].sender == x;
      if i < last { assert prefix[i] == run[i]; }
    }
    forall x | x in s ensures x in s' {
      var i :| 0 <= i < last && lo <= prefix[i].time < hi && prefix[i].sender == x;
      assert run[i] == prefix[i];
    }
  }

  lemma NewSender(run: seq<Sending>, lo: int, hi: int)
    requires run != [] && OneEach(run, lo, hi) && lo <= run[|run| - 1].time < hi
    ensures run[|run| - 1].sender !in SendersIn(run[..|run| - 1], lo, hi)
  {}

  lemma {:induction false} AddsBySender(run: seq<Sending>, lo: int, hi: int, most: nat)
    requires OneEach(run, lo, hi) && forall i :: 0 <= i < |run| ==> run[i].add <= most
    ensures AddsBetween(CallsOf(run), lo, hi) <= |SendersIn(run, lo, hi)| * most
  {
    hide SendersIn;
    if run != [] {
      var last := |run| - 1;
      CallsOfPrefix(run, last);
      AddsBySender(run[..last], lo, hi, most);
      SendersSnoc(run, lo, hi);
      var s := SendersIn(run[..last], lo, hi);
      if lo <= run[last].time < hi {
        NewSender(run, lo, hi);
        assert |s + {run[last].sender}| == |s| + 1;
        OneMore(|s|, most);
      } else {
        assert s + {} == s;
      }
    }
  }

  lemma OneMore(n: nat, most: nat)
    ensures (n + 1) * most == n * most + most
  {}

  lemma {:induction false} FewNumbers(s: set<nat>, n: nat)
    requires forall x :: x in s ==> x < n
    ensures |s| <= n
  {
    if n == 0 {
      assert s == {};
    } else {
      FewNumbers(s - {n - 1}, n - 1);
      if n - 1 in s { assert |s| == |s - {n - 1}| + 1; } else { assert s - {n - 1} == s; }
    }
  }

  // ----- the bound -----

  /** The last moment at which the window held less than twice the limit. */
  lemma {:induction false} LastLight(run: seq<Sending>, max: u32, k: nat) returns (m: nat)
    requires k <= |run|
    ensures m <= k && (m > 0 ==> Window(run[..m]) <= 2 * max - 1)
    ensures forall j :: m < j <= k ==> Window(run[..j]) >= 2 * max
  {
    if k == 0 || Window(run[..k]) <= 2 * max - 1 {
      m := k;
    } else {
      m := LastLight(run, max, k - 1);
    }
  }

  /** A call answered with a delay of at least a second. */
  ghost predicate Heavy(run: seq<Sending>, i: nat, max: u32)
    requires max > 0 && i < |run|
  {
    DelayAt(CallsOf(run), i, max) >= 1000
  }

  lemma HeavyCall(run: seq<Sending>, i: nat, max: u32, most: nat)
    requires max > 0 && i < |run| && DelaysExact(max, most)
    requires 2 * max <= Total(Run(CallsOf(run[..i + 1]))) <= 2 * max - 1 + most
    ensures Heavy(run, i, max)
  {
    CallsOfPrefix(run, i + 1);
    var total := Total(Run(CallsOf(run[..i + 1])));
    assert ExactDelay(total, max);
    LongDelay(total, max);
  }

  /** A thread that made a heavy call sleeps until the call has left the window. */
  lemma HeavyCallsOnce(run: seq<Sending>, senders: nat, max: u32, most: nat, m: nat)
    requires max > 0 && Disciplined(run, senders, max, most) && m < |run|
    requires forall i :: m <= i < |run| - 1 ==> Heavy(run, i, max)
    ensures OneEach(run[m..], Run(CallsOf(run)).base, run[|run| - 1].time + 1)
  {
    BaseInTime(CallsOf(run));
    hide Run, DelayAt;
    var late := run[m..];
    forall i, j | 0 <= i < j < |late| && late[i].sender == late[j].sender
      ensures late[j].time >= late[i].time + 1000
    {
      assert Heavy(run, m + i, max);
    }
  }

  /** What the window holds: the rest of what it held at m, and one call of each thread. */
  lemma WindowSplit(run: seq<Sending>, senders: nat, max: u32, most: nat, m: nat)
    requires max > 0 && Disciplined(run, senders, max, most) && m < |run|
    requires OneEach(run[m..], Run(CallsOf(run)).base, run[|run| - 1].time + 1)
    requires m > 0 ==> Window(run[..m]) <= 2 * max - 1
    ensures Window(run) <= 2 * max - 1 + senders * most
  {
    hide Run, AddsBetween, SendersIn, DelayAt;
    var calls, lo, hi := CallsOf(run), Run(CallsOf(run)).base, run[|run| - 1].time + 1;
    AddsConcat(calls, m, lo, hi);
    assert calls[m..] == CallsOf(run[m..]);
    AddsBySender(run[m..], lo, hi, most);
    var s := SendersIn(run[m..], lo, hi);
    SendersNumbered(run[m..], lo, hi, senders);
    FewNumbers(s, senders);
    Scale(|s|, senders, most);
    if m > 0 { PrefixInWindow(run, m, max); }
  }

  lemma SendersNumbered(run: seq<Sending>, lo: int, hi: int, senders: nat)
    requires forall i :: 0 <= i < |run| ==> run[i].sender < senders
    ensures forall x :: x in SendersIn(run, lo, hi) ==> x < senders
  {}

  lemma Scale(a: nat, b: nat, d: nat)
    requires a <= b
    ensures a * d <= b * d
  {}

  /** Throughput with several threads: n of them, each sleeping as told, never see a total above
      2*max - 1 + n*most. Once the total is twice the limit each of them can make one more call,
      and then sleeps longer than the window lasts. */
  lemma {:induction false} SendersBounded(run: seq<Sending>, senders: nat, max: u32, most: nat)
    requires run != [] && max > 0 && Disciplined(run, senders, max, most)
    requires DelaysExact(max, senders * most) && 2 * max - 1 + senders * most < 0x1_0000_0000
    ensures Total(Run(CallsOf(run))) == Window(run) <= 2 * max - 1 + senders * most
    decreases |run|
  {
    hide Run, DelaysExact, Window, Heavy;
    var m := LastLight(run, max, |run|);
    if m < |run| {
      forall i | m <= i < |run| - 1 ensures Heavy(run, i, max) {
        DisciplinedPrefix(run, senders, max, most, i + 1);
        SendersBounded(run[..i + 1], senders, max, most);
        HeavyCall(run, i, max, senders * most);
      }
      HeavyCallsOnce(run, senders, max, most, m);
      WindowSplit(run, senders, max, most, m);
    } else {
      assert run[..m] == run;
    }
    TotalIsWindow(run);
  }

  lemma TotalIsWindow(run: seq<Sending>)
    requires run != [] && NonDecreasingClock(CallsOf(run)) && Window(run) < 0x1_0000_0000
    ensures Total(Run(CallsOf(run))) == Window(run)
  {
    var calls := CallsOf(run);
    WindowInvariant(calls);
    WindowDepth(calls, Run(calls), run[|run| - 1].time);
    AddsNonNegative(calls, Run(calls).base, run[|run| - 1].time + 1);
  }
}
