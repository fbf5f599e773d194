/** When coalescing towards a destination is on: the hysteresis over its whole send history. */
module CoalesceHistory {
  import opened Ipx
  import opened Sequences
  import opened Coalesce
  import opened CoalesceProofs

  /** The 512-entry history after sends at these times: the last 512 of 512 zeros and the times. */
  function Window(times: seq<nat>): (w: seq<nat>)
    ensures |w| == TRACK_COUNT
  {
    (NoStamps() + times)[|times|..]
  }

  /** The send 511 sends before send i, or zero. */
  function Oldest(times: seq<nat>, i: nat): nat
    requires i < |times|
  {
    if i < TRACK_COUNT - 1 then 0 else times[i - (TRACK_COUNT - 1)]
  }

  /** Send i completes 512 sends within 2.5 s. */
  predicate Fast(times: seq<nat>, i: nat)
    requires i < |times|
  {
    Oldest(times, i) + START_THRESH >= times[i]
  }

  /** Send i completes 512 sends within 10 s. */
  predicate Sustained(times: seq<nat>, i: nat)
    requires i < |times|
  {
    Oldest(times, i) + STOP_THRESH >= times[i]
  }

  /** Coalescing is on after these sends: some send was fast, and every send since then sustained. */
  ghost predicate On(times: seq<nat>) {
    exists i :: 0 <= i < |times| && Fast(times, i) && forall j :: i <= j < |times| ==> Sustained(times, j)
  }

  lemma WindowSlides(times: seq<nat>, t: nat)
    ensures Window(times + [t]) == Window(times)[1..] + [t]
    ensures Window(times + [t])[0] == Oldest(times + [t], |times|)
  {}

  /** One more send: on when it is fast, or when it was on and the send is sustained. */
  lemma OnStep(times: seq<nat>, t: nat)
    ensures var more := times + [t];
            On(more) <==> Fast(more, |times|) || (On(times) && Sustained(more, |times|))
  {
    var more := times + [t];
    assert forall j :: 0 <= j < |times| ==> Oldest(more, j) == Oldest(times, j) && more[j] == times[j];
    if On(times) && Sustained(more, |times|) {
      var i :| 0 <= i < |times| && Fast(times, i) && forall j :: i <= j < |times| ==> Sustained(times, j);
      assert Fast(more, i);
      assert forall j :: i <= j < |more| ==> Sustained(more, j) by {
        forall j | i <= j < |more| ensures Sustained(more, j) { if j < |times| { assert Sustained(times, j); } }
      }
    }
    if Fast(more, |times|) { assert Sustained(more, |times|); }
    if On(more) && !Fast(more, |times|) {
      var i :| 0 <= i < |more| && Fast(more, i) && forall j :: i <= j < |more| ==> Sustained(more, j);
      assert i < |times| && Fast(times, i);
      forall j | i <= j < |times| ensures Sustained(times, j) { assert Sustained(more, j); }
    }
  }

  /** Once a send was fast, coalescing stays on at every send less than 7.5 s later. */
  lemma StaysOn(times: seq<nat>, i: nat)
    requires i < |times| && Fast(times, i)
    requires forall a, b :: 0 <= a < b < |times| ==> times[a] <= times[b]
    requires times[|times| - 1] < times[i] + 7500000
    ensures On(times)
  {}

  /** The times of the tracked sends to k since the table was last freed. */
  function TimesFor(run: seq<Call>, k: Key): seq<nat> {
    if run == [] then []
    else
      var times := TimesFor(run[..|run| - 1], k);
      match run[|run| - 1]
      case SendCall(x, _, now, _, tracked) => if x == k && tracked then times + [now] else times
      case FlushWaitingCall(_) => times
      case CleanupCall => []
  }

  /** A destination's history and state are a function of its send times. */
  ghost predicate Tracks(s: State, k: Key, times: seq<nat>) {
    && (k in s.table <==> times != [])
    && (k in s.table ==> s.table[k].stamps == Window(times) && (s.table[k].active <==> On(times)))
  }

  lemma NotedTracks(s: State, k: Key, times: seq<nat>, now: nat)
    requires Shaped(s) && Tracks(s, k, times)
    ensures Noted(s, k, now).stamps == Window(times + [now])
    ensures Noted(s, k, now).active <==> On(times + [now])
  {
    WindowSlides(times, now);
    OnStep(times, now);
    if times == [] { assert NoStamps() == Window(times); }
  }

  /** What a step does to the histories: only a registered send changes one. */
  ghost predicate SameHistories(s: State, s': State) {
    && s'.table.Keys == s.table.Keys
    && forall k :: k in s.table ==> s'.table[k].stamps == s.table[k].stamps && s'.table[k].active == s.table[k].active
  }

  lemma SendHistories(s: State, k: Key, packet: Bytes, now: nat, header: Bytes)
    requires Shaped(s)
    ensures SameHistories(s.(table := s.table[k := Noted(s, k, now)]), SendTracked(s, k, packet, now, header))
  {
    hide Noted, Verdict, Fits, Remove;
  }

  lemma {:induction false} FlushHistories(s: State, now: nat)
    requires Inv(s)
    ensures SameHistories(s, FlushWaiting(s, now))
    decreases |s.pending|
  {
    if s.pending != [] && Overdue(s.table[s.pending[0]], now) {
      FlushStep(s, s.pending[0]);
      FlushKeepsLinked(s, s.pending[0]);
      FlushHistories(Flush(s, s.pending[0]), now);
    }
  }

  /** In every run, a destination's recorded history is the last 512 of 512 zeros and its send
      times, and it is coalescing exactly when some send was fast and every later one sustained. */
  lemma {:induction false} HistoryTracksRun(run: seq<Call>, k: Key)
    requires AllLegal(run)
    ensures Tracks(After(run), k, TimesFor(run, k))
  {
    if run != [] {
      var prefix, c := run[..|run| - 1], run[|run| - 1];
      var s := After(prefix);
      HistoryTracksRun(prefix, k);
      HistoryStep(s, c, k, TimesFor(prefix, k));
    }
  }

  lemma HistoryStep(s: State, c: Call, k: Key, times: seq<nat>)
    requires Inv(s) && Tracks(s, k, times)
    ensures Tracks(Apply(s, c), k,
                   match c
                   case SendCall(x, _, now, _, tracked) => if x == k && tracked then times + [now] else times
                   case FlushWaitingCall(_) => times
                   case CleanupCall => [])
  {
    hide Window, On, Noted, SendTracked, FlushWaiting, Linked, Bounded;
    match c
    case SendCall(x, p, now, h, tracked) =>
      if tracked {
        SendHistories(s, x, p, now, h);
        if x == k { NotedTracks(s, k, times, now); }
      }
    case FlushWaitingCall(now) => FlushHistories(s, now);
    case CleanupCall =>
  }
}
