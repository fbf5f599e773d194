/** Deadlines of coalescing over whole runs with a non-decreasing clock. */
module CoalesceTiming {
  import opened Ipx
  import opened Sequences
  import opened Coalesce
  import opened CoalesceProofs

  /** A list of destinations in order of payload age, none of them younger than `now`. */
  ghost predicate AgeSorted(t: map<Key, Dest>, s: seq<Key>, now: nat) {
    && (forall i :: 0 <= i < |s| ==> s[i] in t)
    && (forall i, j :: 0 <= i < j < |s| ==> t[s[i]].payloadTime <= t[s[j]].payloadTime)
    && (forall i :: 0 <= i < |s| ==> t[s[i]].payloadTime <= now)
  }

  ghost predicate Aged(s: State, now: nat) { AgeSorted(s.table, s.pending, now) }

  lemma {:induction false} RemovedFrom(s: seq<Key>, k: Key, i: int)
    requires 0 <= i < |Remove(s, k)|
    ensures |Remove(s, k)| <= |s| && exists j :: i <= j < |s| && s[j] == Remove(s, k)[i]
  {
    if s[0] == k {
      assert s[i + 1] == Remove(s, k)[i];
    } else if i == 0 {
      assert s[0] == Remove(s, k)[0];
      if |Remove(s, k)| > 1 { RemovedFrom(s[1..], k, 0); }
    } else {
      RemovedFrom(s[1..], k, i - 1);
      var j :| i - 1 <= j < |s| - 1 && s[1..][j] == Remove(s[1..], k)[i - 1];
      assert s[j + 1] == Remove(s, k)[i];
    }
  }

  lemma {:induction false} RemoveKeepsAged(t: map<Key, Dest>, s: seq<Key>, k: Key, now: nat)
    requires AgeSorted(t, s, now)
    ensures AgeSorted(t, Remove(s, k), now)
  {
    if s != [] && s[0] != k {
      var r := Remove(s[1..], k);
      RemoveKeepsAged(t, s[1..], k, now);
      forall j | 0 <= j < |r| ensures t[s[0]].payloadTime <= t[r[j]].payloadTime {
        RemovedFrom(s[1..], k, j);
        var m :| j <= m < |s| - 1 && s[1..][m] == r[j];
        assert s[m + 1] == r[j];
      }
    }
  }

  lemma SameTimes(t: map<Key, Dest>, t': map<Key, Dest>, s: seq<Key>, now: nat)
    requires AgeSorted(t, s, now)
    requires forall x :: x in t ==> x in t' && t'[x].payloadTime == t[x].payloadTime
    ensures AgeSorted(t', s, now)
  {}

  /** Flushing from anywhere in the pending list keeps it sorted. */
  lemma FlushKeepsAged(s: State, k: Key, now: nat)
    requires Inv(s) && Aged(s, now) && k in s.table && s.table[k].queue != []
    ensures Inv(Flush(s, k)) && Aged(Flush(s, k), now)
  {
    hide Remove, Shaped, Bounded, Linked, Stream, EnvelopeHeader, AgeSorted;
    FlushStep(s, k);
    RemoveKeepsAged(s.table, s.pending, k, now);
    SameTimes(s.table, Flush(s, k).table, Remove(s.pending, k), now);
  }

  lemma AppendKeepsAged(s: State, k: Key, packet: Bytes, now: nat, header: Bytes)
    requires Inv(s) && Aged(s, now) && k in s.table
    requires Fits(s.table[k], |packet|) && |packet| > 0 && EnvelopeHeader(k, header)
    ensures Inv(Append(s, k, packet, now, header)) && Aged(Append(s, k, packet, now, header), now)
  {
    AppendStep(s, k, packet, now, header);
    hide Fits, EnvelopeHeader, Bounded, Stream;
    var s' := Append(s, k, packet, now, header);
    forall i | 0 <= i < |s.pending| ensures s'.pending[i] == s.pending[i]
      && s'.table[s.pending[i]].payloadTime == s.table[s.pending[i]].payloadTime {}
  }

  lemma NoteKeepsAged(s: State, k: Key, now: nat)
    requires Inv(s) && Aged(s, now)
    ensures var s1 := s.(table := s.table[k := Noted(s, k, now)]); Inv(s1) && Aged(s1, now)
  {
    NoteStep(s, k, now);
    var s1 := s.(table := s.table[k := Noted(s, k, now)]);
    forall i | 0 <= i < |s.pending| ensures s1.table[s.pending[i]].payloadTime == s.table[s.pending[i]].payloadTime {}
  }

  lemma OverdueKeepsAged(s: State, k: Key, now: nat)
    requires Inv(s) && Aged(s, now) && k in s.table
    ensures Inv(FlushIfOverdue(s, k, now)) && Aged(FlushIfOverdue(s, k, now), now)
    ensures k in FlushIfOverdue(s, k, now).table && !Overdue(FlushIfOverdue(s, k, now).table[k], now)
  {
    if Overdue(s.table[k], now) { FlushKeepsAged(s, k, now); }
  }

  /** coalesce_send keeps the list sorted and never leaves its own destination overdue. */
  lemma SendKeepsAged(s: State, k: Key, packet: Bytes, now: nat, header: Bytes)
    requires Inv(s) && Aged(s, now) && |packet| > 0 && EnvelopeHeader(k, header)
    ensures var s' := SendTracked(s, k, packet, now, header);
            Inv(s') && Aged(s', now) && k in s'.table && !Overdue(s'.table[k], now)
  {
    NoteKeepsAged(s, k, now);
    var s1 := s.(table := s.table[k := Noted(s, k, now)]);
    assert Shaped(s);
    RoomStep(s, k, |packet|, now);
    hide Inv, Aged, Noted, Verdict, Stream;
    if MakesRoom(s1.table[k], |packet|) {
      MakesRoomHasPayload(s1.table[k], |packet|);
      FlushKeepsAged(s1, k, now);
    }
    var s2 := RoomMade(s1, k, |packet|);
    if Queues(s, k, |packet|, now) {
      AppendKeepsAged(s2, k, packet, now, header);
      OverdueKeepsAged(Append(s2, k, packet, now, header), k, now);
    } else {
      OverdueKeepsAged(s2, k, now);
      DirectKeepsAged(FlushIfOverdue(s2, k, now), k, packet, now);
    }
  }

  lemma DirectKeepsAged(s: State, k: Key, packet: Bytes, now: nat)
    requires Inv(s) && Aged(s, now)
    ensures Inv(s.(wire := s.wire + [Direct(k, packet)])) && Aged(s.(wire := s.wire + [Direct(k, packet)]), now)
  {}

  /** The head-only loop of coalesce_flush_waiting flushes exactly the overdue destinations. */
  lemma {:induction false} FlushWaitingExact(s: State, now: nat)
    requires Inv(s) && Aged(s, now)
    ensures var s' := FlushWaiting(s, now);
            && Inv(s') && Aged(s', now)
            && s'.table.Keys == s.table.Keys
            && forall k :: k in s.table ==>
                 s'.table[k] == if Overdue(s.table[k], now) then s.table[k].(queue := []) else s.table[k]
    decreases |s.pending|
  {
    hide Shaped, Bounded, Flush, Aged, AgeSorted;
    if s.pending == [] {
    } else if Overdue(s.table[s.pending[0]], now) {
      FlushKeepsAged(s, s.pending[0], now);
      FlushKeepsLinked(s, s.pending[0]);
      FlushTable(s, s.pending[0]);
      FlushWaitingExact(Flush(s, s.pending[0]), now);
    } else {
      OldestFirst(s, now);
    }
  }

  lemma FlushTable(s: State, k: Key)
    requires k in s.table && s.table[k].queue != []
    ensures Flush(s, k).table == s.table[k := s.table[k].(queue := [])]
  {}

  /** When the oldest payload is not overdue, none is. */
  lemma OldestFirst(s: State, now: nat)
    requires Linked(s) && Aged(s, now) && s.pending != [] && !Overdue(s.table[s.pending[0]], now)
    ensures forall k :: k in s.table ==> !Overdue(s.table[k], now)
  {}

  ghost predicate Clocked(run: seq<Call>) {
    forall i, j :: 0 <= i < j < |run| && !run[i].CleanupCall? && !run[j].CleanupCall? ==> run[i].now <= run[j].now
  }

  ghost predicate NotAfter(run: seq<Call>, now: nat) {
    forall i :: 0 <= i < |run| && !run[i].CleanupCall? ==> run[i].now <= now
  }

  /** With a non-decreasing clock the pending list is always sorted by payload age. */
  lemma {:induction false} AlwaysAged(run: seq<Call>, now: nat)
    requires AllLegal(run) && Clocked(run) && NotAfter(run, now)
    ensures Aged(After(run), now)
  {
    if run != [] {
      var prefix, c := run[..|run| - 1], run[|run| - 1];
      var s := After(prefix);
      var then_ := if c.CleanupCall? then now else c.now;
      AlwaysAged(prefix, then_);
      assert Apply(s, c) == After(run);
      hide Inv, Aged, Linked, Send;
      match c {
        case SendCall(k, p, t, h, tracked) =>
          if tracked { SendKeepsAged(s, k, p, t, h); } else { DirectKeepsAged(s, k, p, t); }
          assert Aged(Send(s, k, p, t, h, tracked), t) by { SendIs(s, k, p, t, h, tracked); }
        case FlushWaitingCall(t) => FlushWaitingExact(s, t);
        case CleanupCall => CleanupAged(s, now);
      }
    }
  }

  lemma SendIs(s: State, k: Key, p: Bytes, t: nat, h: Bytes, tracked: bool)
    requires Shaped(s)
    ensures Send(s, k, p, t, h, tracked) == if tracked then SendTracked(s, k, p, t, h) else s.(wire := s.wire + [Direct(k, p)])
  {}

  lemma CleanupAged(s: State, now: nat)
    requires Inv(s)
    ensures Inv(Cleanup(s)) && Aged(Cleanup(s), now)
  {
    CleanupStep(s);
  }

  /** After a coalesce_flush_waiting in a run, no payload anywhere is 20 ms old or more; every
      other payload is untouched. */
  lemma NothingOverdueAfterFlush(run: seq<Call>, now: nat)
    requires AllLegal(run) && Clocked(run) && NotAfter(run, now)
    ensures var s, s' := After(run), FlushWaiting(After(run), now);
            && s'.table.Keys == s.table.Keys
            && forall k :: k in s.table ==>
                 && !Overdue(s'.table[k], now)
                 && (!Overdue(s.table[k], now) ==> s'.table[k] == s.table[k])
  {
    AlwaysAged(run, now);
    FlushWaitingExact(After(run), now);
  }
}
