/** The sliding-window limiter that paces sendto(): ten 100 ms slots shifted in place. */
module RateLimit {
  /** RATELIMIT_COUNTS_SIZE */
  const SLOTS: int := 10

  type u32 = x: int | 0 <= x < 0x1_0000_0000

  /** Unsigned 32-bit wrap-around. */
  function Wrap(x: int): u32 { x % 0x1_0000_0000 }

  datatype Limiter = Limiter(base: int, counts: seq<u32>)

  /** The static, zero-initialised limiter sendto() starts with. */
  const INITIAL := Limiter(0, Zeros(SLOTS))

  function Zeros(n: nat): (z: seq<u32>)
    ensures |z| == n && forall i :: 0 <= i < n ==> z[i] == 0
  {
    seq(n, _ => 0 as u32)
  }

  function Sum(s: seq<u32>): int {
    if s == [] then 0 else s[0] + Sum(s[1..])
  }

  /** Moves the window so that `now` falls in one of its slots; the RESET path empties it. */
  function Advance(l: Limiter, now: u32): (a: Limiter)
    requires |l.counts| == SLOTS
    ensures |a.counts| == SLOTS && a.base <= now < a.base + 1000
  {
    if now < l.base then Limiter(now, Zeros(SLOTS))
    else
      var elapsed := now - l.base;
      if elapsed < 1000 then l
      else
        var erased := (elapsed - 1000) / 100 + 1;
        if erased >= SLOTS then Limiter(now, Zeros(SLOTS))
        else Limiter(l.base + 100 * erased, l.counts[erased..] + Zeros(erased))
  }

  /** The limiter after `add` counts at time `now`, with the counters' 32-bit wrap-around. */
  function Account(l: Limiter, add: u32, now: u32): (r: Limiter)
    requires |l.counts| == SLOTS
    ensures |r.counts| == SLOTS && r.base == Advance(l, now).base
  {
    var a := Advance(l, now);
    var slot := (now - a.base) / 100;
    a.(counts := a.counts[slot := Wrap(a.counts[slot] + add)])
  }

  function Total(l: Limiter): u32 { Wrap(Sum(l.counts)) }

  /** Milliseconds to sleep for a one-second total, in 32-bit arithmetic. */
  function Delay(total: u32, max: u32): (ms: u32)
    requires max > 0
  {
    if total > max then Wrap(Wrap((total - max) * 100) / max * 10) else 0
  }

  class RateLimiter {
    var timeBase: u32
    const counts: array<u32>

    ghost predicate Valid()
      reads this, counts
    {
      counts.Length == SLOTS
    }

    ghost function View(): Limiter
      reads this, counts
    {
      Limiter(timeBase, counts[..])
    }

    constructor ()
      ensures Valid() && fresh(counts) && View() == INITIAL
    {
      timeBase := 0;
      counts := new u32[SLOTS](_ => 0);
      new;
      assert counts[..] == Zeros(SLOTS);
    }

    /** memset over the whole counts array. */
    method Reset(now: u32)
      requires counts.Length == SLOTS
      modifies this, counts
      ensures View() == Limiter(now, Zeros(SLOTS))
    {
      for i := 0 to SLOTS
        invariant forall j :: 0 <= j < i ==> counts[j] == 0
      {
        counts[i] := 0;
      }
      timeBase := now;
      assert counts[..] == Zeros(SLOTS);
    }

    /** The memmove and memset that drop the oldest slots. */
    method Shift(erased: int)
      requires counts.Length == SLOTS && 0 < erased < SLOTS
      requires timeBase + 100 * erased < 0x1_0000_0000
      modifies this, counts
      ensures View() == Limiter(old(timeBase) + 100 * erased, old(counts[..])[erased..] + Zeros(erased))
    {
      for i := 0 to SLOTS - erased
        modifies counts
        invariant forall j :: 0 <= j < i ==> counts[j] == old(counts[j + erased])
        invariant forall j :: i <= j < SLOTS ==> counts[j] == old(counts[j])
      {
        counts[i] := counts[i + erased];
      }
      for i := SLOTS - erased to SLOTS
        modifies counts
        invariant forall j :: 0 <= j < SLOTS - erased ==> counts[j] == old(counts[j + erased])
        invariant forall j :: SLOTS - erased <= j < i ==> counts[j] == 0
      {
        counts[i] := 0;
      }
      timeBase := timeBase + 100 * erased;
      assert counts[..] == old(counts[..])[erased..] + Zeros(erased);
    }

    /** Brings the window up to `now`. */
    method MoveWindow(now: u32)
      requires Valid()
      modifies this, counts
      ensures Valid() && View() == Advance(old(View()), now)
    {
      if now < timeBase {
        Reset(now);
      } else if now - timeBase >= 1000 {
        var slotsToErase := (now - timeBase - 1000) / 100 + 1;
        if slotsToErase >= SLOTS {
          Reset(now);
        } else {
          Shift(slotsToErase);
        }
      }
    }

    /** Adds the counts up again, as an unsigned 32-bit sum. */
    method AddUp() returns (total: u32)
      requires counts.Length == SLOTS
      ensures total == Total(View())
    {
      total := 0;
      for i := 0 to SLOTS
        invariant total == Wrap(Sum(counts[..i]))
      {
        assert counts[..i + 1] == counts[..i] + [counts[i]];
        SumSnoc(counts[..i], counts[i]);
        total := Wrap(total + counts[i]);
      }
      assert counts[..SLOTS] == counts[..];
    }

    method GetDelay(addCount: u32, maxPerSecond: u32, now: u32) returns (sleepMs: u32)
      requires Valid()
      requires maxPerSecond > 0
      modifies this, counts
      ensures Valid()
      ensures View() == Account(old(View()), addCount, now)
      ensures sleepMs == Delay(Total(View()), maxPerSecond)
    {
      hide Advance, Sum;
      MoveWindow(now);
      var slot := (now - timeBase) / 100;
      counts[slot] := Wrap(counts[slot] + addCount);
      var thisSecondTotal := AddUp();
      sleepMs := 0;
      if thisSecondTotal > maxPerSecond {
        var excess := thisSecondTotal - maxPerSecond;
        sleepMs := Wrap(Wrap(excess * 100) / maxPerSecond * 10);
      }
    }
  }

  lemma {:induction false} SumSnoc(s: seq<u32>, x: u32)
    ensures Sum(s + [x]) == Sum(s) + x
  {
    if s == [] {
      assert s + [x] == [x];
    } else {
      assert (s + [x])[1..] == s[1..] + [x];
      SumSnoc(s[1..], x);
    }
  }
}
