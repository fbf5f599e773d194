/** What ratelimit_get_delay() achieves over whole runs: the window it measures and the
    throughput it enforces on a sender that sleeps as told. */
module RateLimitProofs {
  import opened RateLimit

  datatype Call = Call(add: u32, time: u32)

  function Run(calls: seq<Call>): (l: Limiter)
    ensures |l.counts| == SLOTS
  {
    if calls == [] then INITIAL
    else Account(Run(calls[..|calls| - 1]), calls[|calls| - 1].add, calls[|calls| - 1].time)
  }

  ghost predicate NonDecreasingClock(calls: seq<Call>) {
    forall i, j :: 0 <= i < j < |calls| ==> calls[i].time <= calls[j].time
  }

  /** What was really added at times in [lo, hi). */
  function AddsBetween(calls: seq<Call>, lo: int, hi: int): int {
    if calls == [] then 0
    else
      var c := calls[|calls| - 1];
      AddsBetween(calls[..|calls| - 1], lo, hi) + if lo <= c.time < hi then c.add else 0
  }

  function SlotAdds(calls: seq<Call>, base: int, k: int): int {
    AddsBetween(calls, base + 100 * k, base + 100 * k + 100)
  }

  lemma {:induction false} AddsNone(calls: seq<Call>, lo: int, hi: int)
    requires forall i :: 0 <= i < |calls| ==> !(lo <= calls[i].time < hi)
    ensures AddsBetween(calls, lo, hi) == 0
  {
    if calls != [] { AddsNone(calls[..|calls| - 1], lo, hi); }
  }

  lemma {:induction false} AddsSplit(calls: seq<Call>, lo: int, mid: int, hi: int)
    requires lo <= mid <= hi
    ensures AddsBetween(calls, lo, hi) == AddsBetween(calls, lo, mid) + AddsBetween(calls, mid, hi)
  {
    if calls != [] { AddsSplit(calls[..|calls| - 1], lo, mid, hi); }
  }

  lemma {:induction false} AddsNonNegative(calls: seq<Call>, lo: int, hi: int)
    ensures 0 <= AddsBetween(calls, lo, hi)
  {
    if calls != [] { AddsNonNegative(calls[..|calls| - 1], lo, hi); }
  }

  lemma AddsWider(calls: seq<Call>, lo: int, lo': int, hi: int)
    requires lo' <= lo <= hi
    ensures AddsBetween(calls, lo, hi) <= AddsBetween(calls, lo', hi)
  {}

  /** Slot k holds exactly what was added during its 100 ms; only adds older than 900 ms are gone. */
  ghost predicate MeasuresWindow(calls: seq<Call>, l: Limiter)
    requires |l.counts| == SLOTS
  {
    && (forall k :: 0 <= k < SLOTS ==>
          l.counts[k] == Wrap(SlotAdds(calls, l.base, k)))
    && if calls == [] then l.base == 0 else
         var last := calls[|calls| - 1].time;
         && l.base <= last < l.base + 1000
         && forall i :: 0 <= i < |calls| && calls[i].time < l.base ==> calls[i].time < last - 900
  }

  lemma MoveKeepsWindow(calls: seq<Call>, l: Limiter, now: u32)
    requires NonDecreasingClock(calls) && |l.counts| == SLOTS && MeasuresWindow(calls, l)
    requires (calls != [] ==> calls[|calls| - 1].time <= now)
    ensures var a := Advance(l, now);
            && (forall k :: 0 <= k < SLOTS ==>
                  a.counts[k] == Wrap(SlotAdds(calls, a.base, k)))
            && (forall i :: 0 <= i < |calls| && calls[i].time < a.base ==> calls[i].time < now - 900)
  {
    hide AddsBetween;
    var a := Advance(l, now);
    if now - l.base >= 1000 {
      var erased := (now - l.base - 1000) / 100 + 1;
      forall k | 0 <= k < SLOTS ensures a.counts[k] == Wrap(SlotAdds(calls, a.base, k)) {
        if erased < SLOTS && k < SLOTS - erased {
          assert a.counts[k] == l.counts[k + erased];
          assert a.base + 100 * k == l.base + 100 * (k + erased);
        } else {
          AddsNone(calls, a.base + 100 * k, a.base + 100 * k + 100);
        }
      }
    }
  }

  /** The window moves in steps of 100 ms and no further than it must; a clock that has restarted,
      or a call that comes 1900 ms after the window's start, empties it and starts it anew. */
  lemma MovesJustEnough(l: Limiter, now: u32)
    requires |l.counts| == SLOTS
    ensures var a, elapsed := Advance(l, now), now - l.base;
            if 0 <= elapsed < 1000 then a == l
            else if 0 <= elapsed < 1900 then
              var shift := (a.base - l.base) / 100;
              && (a.base - l.base) % 100 == 0 && now - 1000 < a.base <= now - 900 && 0 < shift < SLOTS
              && forall k :: 0 <= k < SLOTS ==> a.counts[k] == if k + shift < SLOTS then l.counts[k + shift] else 0
            else a.base == now && forall k :: 0 <= k < SLOTS ==> a.counts[k] == 0
  {}

  lemma AccountKeepsSlot(calls: seq<Call>, l: Limiter, c: Call, k: int)
    requires |l.counts| == SLOTS && 0 <= k < SLOTS
    requires Advance(l, c.time).counts[k] == Wrap(SlotAdds(calls, Advance(l, c.time).base, k))
    ensures Account(l, c.add, c.time).counts[k] == Wrap(SlotAdds(calls + [c], Advance(l, c.time).base, k))
  {
    assert (calls + [c])[..|calls|] == calls;
  }

  lemma AccountMeasures(calls: seq<Call>, l: Limiter, c: Call)
    requires NonDecreasingClock(calls + [c]) && |l.counts| == SLOTS && MeasuresWindow(calls, l)
    ensures MeasuresWindow(calls + [c], Account(l, c.add, c.time))
  {
    assert forall i :: 0 <= i < |calls| ==> (calls + [c])[i] == calls[i];
    assert calls != [] ==> calls[|calls| - 1] == (calls + [c])[|calls| - 1] && (calls + [c])[|calls|] == c;
    MoveKeepsWindow(calls, l, c.time);
    forall k | 0 <= k < SLOTS
      ensures Account(l, c.add, c.time).counts[k] == Wrap(SlotAdds(calls + [c], Advance(l, c.time).base, k))
    {
      AccountKeepsSlot(calls, l, c, k);
    }
  }

  lemma {:induction false} WindowInvariant(calls: seq<Call>)
    requires NonDecreasingClock(calls)
    ensures MeasuresWindow(calls, Run(calls))
  {
    if calls != [] {
      var prefix, c := calls[..|calls| - 1], calls[|calls| - 1];
      assert prefix + [c] == calls;
      WindowInvariant(prefix);
      AccountMeasures(prefix, Run(prefix), c);
    }
  }

  lemma WrapAdd(a: int, b: int, c: int)
    requires Wrap(a) == Wrap(b)
    ensures Wrap(a + Wrap(c)) == Wrap(b + c)
  {}

  lemma {:induction false} SumOfSlots(calls: seq<Call>, l: Limiter, k: nat)
    requires |l.counts| == SLOTS && MeasuresWindow(calls, l) && k <= SLOTS
    ensures Wrap(Sum(l.counts[..k])) == Wrap(AddsBetween(calls, l.base, l.base + 100 * k))
  {
    if k == 0 {
      AddsSplit(calls, l.base, l.base, l.base);
    } else {
      SumOfSlots(calls, l, k - 1);
      assert l.counts[..k] == l.counts[..k - 1] + [l.counts[k - 1]];
      SumSnoc(l.counts[..k - 1], l.counts[k - 1]);
      AddsSplit(calls, l.base, l.base + 100 * (k - 1), l.base + 100 * k);
      WrapAdd(Sum(l.counts[..k - 1]), AddsBetween(calls, l.base, l.base + 100 * (k - 1)), SlotAdds(calls, l.base, k - 1));
    }
  }

  /** The window of a limiter that measures `calls` holds every call of the last 900 ms and
      none older than 999 ms. */
  lemma WindowDepth(calls: seq<Call>, l: Limiter, now: int)
    requires NonDecreasingClock(calls) && calls != [] && now == calls[|calls| - 1].time
    requires |l.counts| == SLOTS && MeasuresWindow(calls, l)
    ensures Total(l) == Wrap(AddsBetween(calls, l.base, now + 1))
    ensures AddsBetween(calls, now - 900, now + 1) <= AddsBetween(calls, l.base, now + 1)
    ensures AddsBetween(calls, l.base, now + 1) <= AddsBetween(calls, now - 999, now + 1)
  {
    SumOfSlots(calls, l, SLOTS);
    assert l.counts[..SLOTS] == l.counts;
    AddsSplit(calls, l.base, now + 1, l.base + 1000);
    AddsNone(calls, now + 1, l.base + 1000);
    AddsWider(calls, l.base, now - 999, now + 1);
    if now - 900 < l.base {
      AddsSplit(calls, now - 900, l.base, now + 1);
      AddsNone(calls, now - 900, l.base);
    } else {
      AddsWider(calls, now - 900, l.base, now + 1);
    }
  }

  /** The total counts every add of the last 900 ms and none older than 999 ms, as long as
      what was added in the last second fits the 32-bit counters. */
  lemma WindowBounds(calls: seq<Call>, now: int)
    requires NonDecreasingClock(calls) && calls != [] && now == calls[|calls| - 1].time
    requires AddsBetween(calls, now - 999, now + 1) < 0x1_0000_0000
    ensures AddsBetween(calls, now - 900, now + 1) <= Total(Run(calls)) <= AddsBetween(calls, now - 999, now + 1)
  {
    WindowInvariant(calls);
    var l := Run(calls);
    WindowDepth(calls, l, now);
    AddsNonNegative(calls, l.base, now + 1);
  }

  // ----- when there is nothing to sleep -----

  /** A total is answered with no delay if and only if it is within the limit, or the first product,
      after wrapping, is below the limit, or - at a limit of 1 - the second one wraps to nothing. */
  lemma NoDelayIff(total: u32, max: u32, product: u32)
    requires max > 0 && (total > max ==> product == Wrap((total - max) * 100))
    ensures Delay(total, max) == 0 <==> total <= max || product < max || (max == 1 && product == 0x8000_0000)
  {
    var q := product / max;
    if product < max { QuotientAtMost(product, 1, max); } else { QuotientAtLeast(product, 1, max); }
    QuotientMonotone(0, product, max);
    HugeQuotient(product, max, q);
    TimesTenVanishes(q);
  }

  lemma TimesTenVanishes(q: int)
    requires 0 <= q < 0x1_0000_0000
    ensures Wrap(q * 10) == 0 <==> q == 0 || q == 0x8000_0000
  {}

  lemma HugeQuotient(product: int, max: int, q: int)
    requires 0 <= product < 0x1_0000_0000 && max > 0 && q == product / max
    ensures q < 0x1_0000_0000
    ensures q == 0x8000_0000 <==> max == 1 && product == 0x8000_0000
  {
    if max >= 2 {
      HalfAtMost(product, max);
      QuotientAtMost(product, 0x8000_0000, max);
    }
  }

  lemma HalfAtMost(product: int, max: int)
    requires 0 <= product < 0x1_0000_0000 && max >= 2
    ensures product < 0x8000_0000 * max
  {}

  /** It happens above the limit too: a limiter with a limit of 1000 that has just been given 42950673
      counts answers with no delay. */
  lemma DelayCanVanish()
    ensures Total(Account(INITIAL, 42950673, 0)) == 42950673 && Delay(42950673, 1000) == 0
  {
    hide Account;
    FirstCall(Call(42950673, 0));
    NoDelayIff(42950673, 1000, 4);
  }

  lemma QuotientAtMost(x: int, k: nat, d: int)
    requires d > 0 && 0 <= x < k * d
    ensures x / d < k
  {
    CancelFactor(x / d, k, d);
  }

  // ----- throughput of a sender that sleeps as long as it is told -----

  /** The delay the limiter answered call i with. */
  function DelayAt(calls: seq<Call>, i: int, max: u32): u32
    requires 0 <= i < |calls| && max > 0
  {
    Delay(Total(Run(calls[..i + 1])), max)
  }

  /** Who has added no more than the limit in the last second is not made to wait. */
  lemma WithinLimitGoesOn(calls: seq<Call>, max: u32, now: int)
    requires NonDecreasingClock(calls) && calls != [] && max > 0 && now == calls[|calls| - 1].time
    requires AddsBetween(calls, now - 999, now + 1) <= max
    ensures DelayAt(calls, |calls| - 1, max) == 0
  {
    hide AddsBetween, Run;
    assert calls[..|calls| - 1 + 1] == calls;
    WindowBounds(calls, now);
    NoDelayIff(Total(Run(calls)), max, 0);
  }

  /** As long as what was added in the last second is not so far above the limit that the first
      product wraps: who has added less than 1.01 times the limit in it is not made to wait, and who
      has added as much as that in the last 900 ms is. */
  lemma OverLimitWaits(calls: seq<Call>, max: u32, now: int)
    requires NonDecreasingClock(calls) && calls != [] && max > 0 && now == calls[|calls| - 1].time
    requires AddsBetween(calls, now - 999, now + 1) < 0x1_0000_0000
    requires (AddsBetween(calls, now - 999, now + 1) - max) * 100 < 0x1_0000_0000
    ensures 100 * AddsBetween(calls, now - 999, now + 1) < 101 * max ==> DelayAt(calls, |calls| - 1, max) == 0
    ensures 100 * AddsBetween(calls, now - 900, now + 1) >= 101 * max ==> DelayAt(calls, |calls| - 1, max) > 0
  {
    hide AddsBetween, Run, Delay, Total;
    assert calls[..|calls| - 1 + 1] == calls;
    WindowBounds(calls, now);
    var total := Total(Run(calls));
    NoDelayIff(total, max, if total > max then (total - max) * 100 else 0);
  }

  /** The next call comes no sooner than the delay, unless the 32-bit clock has restarted. */
  ghost predicate Obedient(calls: seq<Call>, max: u32)
    requires max > 0
  {
    forall i :: 0 < i < |calls| ==>
      || calls[i].time >= calls[i - 1].time + DelayAt(calls, i - 1, max)
      || calls[i].time < Run(calls[..i]).base
  }

  ghost predicate AddsAtMost(calls: seq<Call>, most: int) {
    forall i :: 0 <= i < |calls| ==> calls[i].add <= most
  }

  /** No slot later than the one `time` falls in holds anything. */
  ghost predicate NothingAfter(l: Limiter, time: int) {
    && |l.counts| == SLOTS && l.base <= time < l.base + 1000
    && forall k :: (time - l.base) / 100 < k < SLOTS ==> l.counts[k] == 0
  }

  lemma {:induction false} SumNonNegative(s: seq<u32>)
    ensures 0 <= Sum(s)
  {
    if s != [] { SumNonNegative(s[1..]); }
  }

  lemma {:induction false} SumZeros(s: seq<u32>)
    requires forall i :: 0 <= i < |s| ==> s[i] == 0
    ensures Sum(s) == 0
  {
    if s != [] { SumZeros(s[1..]); }
  }

  lemma {:induction false} SumConcat(s: seq<u32>, t: seq<u32>)
    ensures Sum(s + t) == Sum(s) + Sum(t)
  {
    if s == [] {
      assert s + t == t;
    } else {
      assert (s + t)[1..] == s[1..] + t;
      SumConcat(s[1..], t);
    }
  }

  lemma SumUpdate(s: seq<u32>, i: nat, x: u32)
    requires i < |s|
    ensures Sum(s[i := x]) == Sum(s) - s[i] + x
  {
    assert s == s[..i] + ([s[i]] + s[i + 1..]);
    assert s[i := x] == s[..i] + ([x] + s[i + 1..]);
    SumConcat(s[..i], [s[i]] + s[i + 1..]);
    SumConcat(s[..i], [x] + s[i + 1..]);
  }

  /** Moving the window only drops counts; a whole second later, or after a clock restart,
      it has dropped all of them. */
  lemma MoveDrops(l: Limiter, last: int, now: u32)
    requires NothingAfter(l, last)
    ensures 0 <= Sum(Advance(l, now).counts) <= Sum(l.counts)
    ensures now >= last ==> NothingAfter(Advance(l, now), now)
    ensures now >= last + 1000 || now < l.base ==> forall k :: 0 <= k < SLOTS ==> Advance(l, now).counts[k] == 0
  {
    SumNonNegative(l.counts);
    SumZeros(Zeros(SLOTS));
    var elapsed := now - l.base;
    if 1000 <= elapsed && (elapsed - 1000) / 100 + 1 < SLOTS {
      var erased := (elapsed - 1000) / 100 + 1;
      assert l.counts == l.counts[..erased] + l.counts[erased..];
      SumConcat(l.counts[..erased], l.counts[erased..]);
      SumConcat(l.counts[erased..], Zeros(erased));
      SumZeros(Zeros(erased));
      SumNonNegative(l.counts[..erased]);
      SumNonNegative(l.counts[erased..]);
    }
  }

  lemma CountWithinSum(s: seq<u32>, i: nat)
    requires i < |s|
    ensures s[i] <= Sum(s)
  {
    assert s == s[..i] + ([s[i]] + s[i + 1..]);
    SumConcat(s[..i], [s[i]] + s[i + 1..]);
    SumNonNegative(s[..i]);
    SumNonNegative(s[i + 1..]);
  }

  /** Every total a sender adding at most `most` at a time can reach is answered exactly. */
  ghost predicate DelaysExact(max: u32, most: int)
    requires max > 0
  {
    forall total: u32 :: max < total <= 2 * max - 1 + most ==> ExactDelay(total, max)
  }

  /** The delay is what unbounded arithmetic gives. */
  ghost predicate ExactDelay(total: u32, max: u32)
    requires total > max > 0
  {
    Delay(total, max) == (total - max) * 100 / max * 10
  }

  lemma CancelFactor(a: int, b: int, d: int)
    requires d > 0 && a * d < b * d
    ensures a < b
  {}

  lemma QuotientMonotone(x: int, y: int, d: int)
    requires d > 0 && 0 <= x <= y
    ensures x / d <= y / d
  {
    var qx, qy := x / d, y / d;
    assert qx * d <= x && y < (qy + 1) * d;
    CancelFactor(qx, qy + 1, d);
  }

  lemma QuotientStrict(x: int, y: int, d: int)
    requires d > 0 && 0 <= x && x + d <= y
    ensures x / d < y / d
  {}

  lemma QuotientAtLeast(x: int, k: int, d: int)
    requires d > 0 && x >= k * d
    ensures x / d >= k
  {
    assert k * d < (x / d + 1) * d;
    CancelFactor(k, x / d + 1, d);
  }

  lemma WrappedQuotient(product: int, max: u32, q: int, quotient: int)
    requires 0 <= product && max > 0 && q == Wrap(product) / max && quotient == product / max
    ensures 0 <= q
    ensures product < 0x1_0000_0000 ==> q == quotient
    ensures product >= 0x1_0000_0000 ==> q < quotient
  {
    if product >= 0x1_0000_0000 { QuotientStrict(Wrap(product), product, max); }
    QuotientMonotone(0, Wrap(product), max);
  }

  lemma WrappedTimesTen(product: int, q: int, quotient: int)
    requires 0 <= q && (product < 0x1_0000_0000 ==> q == quotient) && (product >= 0x1_0000_0000 ==> q < quotient)
    ensures Wrap(q * 10) == quotient * 10 <==> product < 0x1_0000_0000 && quotient * 10 < 0x1_0000_0000
  {}

  /** The delay is what unbounded arithmetic gives exactly when neither multiplication overflows. */
  lemma DelayExactIff(total: u32, max: u32, product: int, quotient: int)
    requires total > max > 0 && product == (total - max) * 100 && quotient == product / max
    ensures Delay(total, max) == quotient * 10 <==> product < 0x1_0000_0000 && quotient * 10 < 0x1_0000_0000
  {
    var q := Wrap(product) / max;
    WrappedQuotient(product, max, q, quotient);
    WrappedTimesTen(product, q, quotient);
  }

  /** What to check before configuring a limit: the largest excess must not overflow. */
  lemma DelaysExactIff(max: u32, most: nat)
    requires max > 0 && most > 0 && 2 * max - 1 + most < 0x1_0000_0000
    ensures DelaysExact(max, most)
       <==> (max - 1 + most) * 100 < 0x1_0000_0000 && (max - 1 + most) * 100 / max * 10 < 0x1_0000_0000
  {
    var largest := (max - 1 + most) * 100;
    DelayExactIff(2 * max - 1 + most, max, largest, largest / max);
    if largest < 0x1_0000_0000 && largest / max * 10 < 0x1_0000_0000 {
      forall total: u32 | max < total <= 2 * max - 1 + most ensures ExactDelay(total, max) {
        var product := (total - max) * 100;
        QuotientMonotone(product, largest, max);
        DelayExactIff(total, max, product, product / max);
      }
    } else {
      assert !ExactDelay(2 * max - 1 + most, max);
    }
  }

  /** The second multiplication can overflow although the first does not: a limiter with a limit
      of 1 that has just been given 4294969 counts answers 704 ms instead of 4294968000 ms. */
  lemma DelayCanWrap()
    ensures Total(Account(INITIAL, 4294969, 0)) == 4294969 && (4294969 - 1) * 100 < 0x1_0000_0000
    ensures Delay(Total(Account(INITIAL, 4294969, 0)), 1) == 704 && !ExactDelay(4294969, 1)
  {
    hide Account;
    FirstCall(Call(4294969, 0));
  }

  /** With no add larger than the largest payload the second multiplication cannot overflow: then
      every delay of an obedient sender is exact if and only if the first one does not. */
  lemma DelaysExactForPackets(max: u32, most: nat)
    requires 0 < most <= 8192 && max > 0 && 2 * max - 1 + most < 0x1_0000_0000
    ensures DelaysExact(max, most) <==> (max - 1 + most) * 100 < 0x1_0000_0000
  {
    hide DelaysExact;
    DelaysExactIff(max, most);
  }

  /** A total of twice the limit is answered with a delay of at least a second. */
  lemma LongDelay(total: u32, max: u32)
    requires max > 0 && 2 * max <= total
    ensures ExactDelay(total, max) ==> Delay(total, max) >= 1000
  {
    QuotientAtLeast((total - max) * 100, 100, max);
  }

  /** One obedient step keeps the total within 2*max - 1 + most, and nothing in it wraps. */
  lemma StepStaysBounded(l: Limiter, last: int, max: u32, most: int, c: Call)
    requires NothingAfter(l, last) && max > 0 && c.add <= most && DelaysExact(max, most)
    requires Sum(l.counts) <= 2 * max - 1 + most < 0x1_0000_0000
    requires c.time >= last + Delay(Total(l), max) || c.time < l.base
    ensures NothingAfter(Account(l, c.add, c.time), c.time)
    ensures Sum(Account(l, c.add, c.time).counts) <= 2 * max - 1 + most
  {
    hide Advance, Account, Delay, ExactDelay, Sum;
    var a := Advance(l, c.time);
    SumNonNegative(l.counts);
    MoveDrops(l, last, c.time);
    if Sum(l.counts) >= 2 * max || c.time < l.base {
      if c.time >= l.base { LongDelay(Sum(l.counts), max); }
      SumZeros(a.counts);
    }
    AddToSlot(a, c);
    AlreadyMoved(l, c);
  }

  lemma AlreadyMoved(l: Limiter, c: Call)
    requires |l.counts| == SLOTS
    ensures Account(Advance(l, c.time), c.add, c.time) == Account(l, c.add, c.time)
  {}

  lemma AddToSlot(a: Limiter, c: Call)
    requires NothingAfter(a, c.time)
    requires Sum(a.counts) + c.add < 0x1_0000_0000
    ensures Account(a, c.add, c.time) == a.(counts := Account(a, c.add, c.time).counts)
    ensures NothingAfter(Account(a, c.add, c.time), c.time)
    ensures Sum(Account(a, c.add, c.time).counts) == Sum(a.counts) + c.add
  {
    var slot := (c.time - a.base) / 100;
    CountWithinSum(a.counts, slot);
    SumUpdate(a.counts, slot, a.counts[slot] + c.add);
  }

  /** Throughput: whatever the clock does, a sender that obeys its delays never sees a total
      above 2*max - 1 + most. */
  lemma {:induction false} TotalsBounded(calls: seq<Call>, max: u32, most: nat)
    requires calls != [] && max > 0 && DelaysExact(max, most) && 2 * max - 1 + most < 0x1_0000_0000
    requires Obedient(calls, max) && AddsAtMost(calls, most)
    ensures NothingAfter(Run(calls), calls[|calls| - 1].time)
    ensures Total(Run(calls)) == Sum(Run(calls).counts) <= 2 * max - 1 + most
  {
    hide Advance, Account, Delay, ExactDelay;
    var prefix, c := calls[..|calls| - 1], calls[|calls| - 1];
    if prefix == [] {
      FirstCall(c);
    } else {
      ObedientPrefix(calls, max);
      TotalsBounded(prefix, max, most);
      assert calls[..|calls| - 2 + 1] == prefix;
      StepStaysBounded(Run(prefix), prefix[|prefix| - 1].time, max, most, c);
    }
    SumNonNegative(Run(calls).counts);
  }

  /** Without exact delays the bound fails: at a limit of 1 the first of these calls is answered
      with 40 ms, and the second, made 40 ms later, brings the total to twice as much. */
  lemma BoundCanFail(calls: seq<Call>)
    requires calls == [Call(42949674, 0), Call(42949674, 40)]
    ensures (1 - 1 + 42949674) * 100 >= 0x1_0000_0000 && !DelaysExact(1, 42949674)
    ensures Obedient(calls, 1) && AddsAtMost(calls, 42949674)
    ensures Total(Run(calls)) == Sum(Run(calls).counts) == 85899348 > 2 * 1 - 1 + 42949674
  {
    hide Account, Sum, Delay, Advance, DelaysExact, ExactDelay;
    RunOfTwo(calls);
    FirstCall(calls[0]);
    EarlyDelay();
    NotMoved(INITIAL, calls[0]);
    AlreadyMoved(Run(calls[..1]), calls[1]);
    NotMoved(Run(calls[..1]), calls[1]);
    AddToSlot(Run(calls[..1]), calls[1]);
  }

  lemma RunOfTwo(calls: seq<Call>)
    requires |calls| == 2
    ensures Run(calls[..1]) == Account(INITIAL, calls[0].add, calls[0].time)
    ensures Run(calls) == Account(Run(calls[..1]), calls[1].add, calls[1].time)
  {
    assert calls[..2 - 1] == calls[..1] && calls[..1][..1 - 1] == [];
  }

  lemma EarlyDelay()
    ensures Delay(42949674, 1) == 40 && !ExactDelay(42949674, 1) && !DelaysExact(1, 42949674)
  {}

  lemma NotMoved(l: Limiter, c: Call)
    requires NothingAfter(l, 0) && c.time < 1000 && l.base == 0
    ensures Advance(l, c.time) == l && NothingAfter(l, c.time)
  {}

  lemma FirstCall(c: Call)
    ensures NothingAfter(Account(INITIAL, c.add, c.time), c.time)
    ensures Sum(Account(INITIAL, c.add, c.time).counts) == c.add
  {
    SumZeros(Zeros(SLOTS));
    MoveDrops(INITIAL, 0, c.time);
    AddToSlot(Advance(INITIAL, c.time), c);
  }

  lemma ObedientPrefix(calls: seq<Call>, max: u32)
    requires calls != [] && max > 0 && Obedient(calls, max)
    ensures Obedient(calls[..|calls| - 1], max)
  {
    var prefix := calls[..|calls| - 1];
    forall i | 0 < i < |prefix|
      ensures || prefix[i].time >= prefix[i - 1].time + DelayAt(prefix, i - 1, max)
              || prefix[i].time < Run(prefix[..i]).base
    {
      assert prefix[..i] == calls[..i] && prefix[..i - 1 + 1] == calls[..i - 1 + 1];
    }
  }

  lemma RoomToSpare(max: u32, most: nat)
    requires max > 0 && DelaysExact(max, most) && 2 * max - 1 + most < 0x1_0000_0000
    ensures 2 * max - 1 + 2 * most < 0x1_0000_0000
  {
    if most > 0 { DelaysExactIff(max, most); }
  }

  /** The window only ever gains the newest call. */
  lemma WindowGainsOneCall(calls: seq<Call>, max: u32, most: nat)
    requires |calls| > 1 && max > 0 && NonDecreasingClock(calls)
    ensures var prefix, c := calls[..|calls| - 1], calls[|calls| - 1];
            AddsBetween(calls, Run(calls).base, c.time + 1)
            <= AddsBetween(prefix, Run(prefix).base, prefix[|prefix| - 1].time + 1) + c.add
  {
    hide Advance, Account;
    var prefix, c := calls[..|calls| - 1], calls[|calls| - 1];
    var last: int := prefix[|prefix| - 1].time;
    WindowInvariant(prefix);
    AddsSplit(prefix, Run(prefix).base, last + 1, c.time + 1);
    AddsNone(prefix, last + 1, c.time + 1);
    BaseMovesForward(Run(prefix), c.time);
    AddsWider(prefix, Run(calls).base, Run(prefix).base, c.time + 1);
  }

  /** The same bound on what was really added: at most 2*max - 1 + most in the 900 ms up to any call. */
  lemma {:induction false} RealThroughputBounded(calls: seq<Call>, max: u32, most: nat, now: int)
    requires calls != [] && max > 0 && DelaysExact(max, most) && 2 * max - 1 + most < 0x1_0000_0000
    requires now == calls[|calls| - 1].time
    requires NonDecreasingClock(calls) && Obedient(calls, max) && AddsAtMost(calls, most)
    ensures AddsBetween(calls, Run(calls).base, now + 1) == Total(Run(calls))
    ensures AddsBetween(calls, now - 900, now + 1) <= 2 * max - 1 + most
  {
    hide Run, Delay, ExactDelay, MeasuresWindow, Obedient, DelaysExact;
    var prefix := calls[..|calls| - 1];
    TotalsBounded(calls, max, most);
    WindowInvariant(calls);
    WindowDepth(calls, Run(calls), now);
    AddsNonNegative(calls, Run(calls).base, now + 1);
    RoomToSpare(max, most);
    if prefix == [] {
    } else {
      ObedientPrefix(calls, max);
      RealThroughputBounded(prefix, max, most, prefix[|prefix| - 1].time);
      TotalsBounded(prefix, max, most);
      WindowGainsOneCall(calls, max, most);
    }
  }

  lemma BaseMovesForward(l: Limiter, now: u32)
    requires |l.counts| == SLOTS && l.base <= now
    ensures l.base <= Advance(l, now).base
  {}

  // ----- sendto(): one thread, two limiters, sleeping the longer delay -----

  /** One sendto(): the payload length and the two clock readings its limiters got. */
  datatype Sent = Sent(len: u32, packetTime: u32, byteTime: u32)

  function PacketCalls(run: seq<Sent>): (c: seq<Call>)
    ensures |c| == |run|
  {
    seq(|run|, i requires 0 <= i < |run| => Call(1, run[i].packetTime))
  }

  function ByteCalls(run: seq<Sent>): (c: seq<Call>)
    ensures |c| == |run|
  {
    seq(|run|, i requires 0 <= i < |run| => Call(run[i].len, run[i].byteTime))
  }

  /** A limit of zero disables its limiter. */
  function DelayOrNone(calls: seq<Call>, i: int, limit: u32): u32
    requires 0 <= i < |calls|
  {
    if limit > 0 then DelayAt(calls, i, limit) else 0
  }

  /** Sleep(max(packet delay, byte delay)) runs between one call's readings and the next's. */
  ghost predicate SleepsTheMax(run: seq<Sent>, packetLimit: u32, byteLimit: u32) {
    && (forall i :: 0 <= i < |run| ==> run[i].packetTime <= run[i].byteTime)
    && forall i :: 0 < i < |run| ==>
         var p := DelayOrNone(PacketCalls(run), i - 1, packetLimit);
         var b := DelayOrNone(ByteCalls(run), i - 1, byteLimit);
         run[i].packetTime >= run[i - 1].byteTime + if p > b then p else b
  }

  /** Sleeping the longer of the two delays obeys both limiters, so both limits hold. */
  lemma BothLimitsHold(run: seq<Sent>, packetLimit: u32, byteLimit: u32, mostLen: nat)
    requires run != [] && SleepsTheMax(run, packetLimit, byteLimit)
    requires forall i :: 0 <= i < |run| ==> run[i].len <= mostLen
    requires packetLimit > 0 ==> DelaysExact(packetLimit, 1) && 2 * packetLimit < 0x1_0000_0000
    requires byteLimit > 0 ==> DelaysExact(byteLimit, mostLen) && 2 * byteLimit - 1 + mostLen < 0x1_0000_0000
    ensures packetLimit > 0 ==> Total(Run(PacketCalls(run))) <= 2 * packetLimit
    ensures byteLimit > 0 ==> Total(Run(ByteCalls(run))) <= 2 * byteLimit - 1 + mostLen
  {
    hide Run, Delay, ExactDelay;
    if packetLimit > 0 {
      assert Obedient(PacketCalls(run), packetLimit);
      TotalsBounded(PacketCalls(run), packetLimit, 1);
    }
    if byteLimit > 0 {
      assert Obedient(ByteCalls(run), byteLimit);
      TotalsBounded(ByteCalls(run), byteLimit, mostLen);
    }
  }
}
