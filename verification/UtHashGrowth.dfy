/** Growth bound of the hash table, for any hash function and any run of adds and deletes. */
module UtHashGrowth {
  import opened Bits
  import opened Options
  import opened Sequences
  import opened UtHash

  ghost predicate AtThreshold<K, E>(b: Bucket<K, E>) { b.count >= Threshold(b.expandMult) }

  /** What a bucket weighs in the growth potential. */
  ghost function Weight<K, E>(b: Bucket<K, E>): int {
    b.expandMult + 1 + if AtThreshold(b) then 1 else 0
  }

  ghost function TotalWeight<K, E>(bs: seq<Bucket<K, E>>): int {
    if bs == [] then 0 else TotalWeight(bs[..|bs| - 1]) + Weight(bs[|bs| - 1])
  }

  function TotalCount<K, E>(bs: seq<Bucket<K, E>>): nat {
    if bs == [] then 0 else TotalCount(bs[..|bs| - 1]) + bs[|bs| - 1].count
  }

  ghost predicate ChainsBounded<K, E>(bs: seq<Bucket<K, E>>) {
    forall i :: 0 <= i < |bs| ==> bs[i].count <= Threshold(bs[i].expandMult)
  }

  /** The potential invariant that holds while expansion is not inhibited. */
  ghost predicate Growing<K, E>(bs: seq<Bucket<K, E>>) {
    ChainsBounded(bs) && TotalWeight(bs) <= 2 * |bs|
  }

  // ----- sums over buckets -----

  lemma {:induction false} WeightUpdate<K, E>(bs: seq<Bucket<K, E>>, i: nat, b: Bucket<K, E>)
    requires i < |bs|
    ensures TotalWeight(bs[i := b]) == TotalWeight(bs) - Weight(bs[i]) + Weight(b)
  {
    if i < |bs| - 1 {
      assert bs[i := b][..|bs| - 1] == bs[..|bs| - 1][i := b];
      WeightUpdate(bs[..|bs| - 1], i, b);
    } else {
      assert bs[i := b][..|bs| - 1] == bs[..|bs| - 1];
    }
  }

  lemma {:induction false} CountUpdate<K, E>(bs: seq<Bucket<K, E>>, i: nat, b: Bucket<K, E>)
    requires i < |bs|
    ensures TotalCount(bs[i := b]) == TotalCount(bs) - bs[i].count + b.count
  {
    if i < |bs| - 1 {
      assert bs[i := b][..|bs| - 1] == bs[..|bs| - 1][i := b];
      CountUpdate(bs[..|bs| - 1], i, b);
    } else {
      assert bs[i := b][..|bs| - 1] == bs[..|bs| - 1];
    }
  }

  lemma {:induction false} CountUpdateAll<K, E>(n: nat)
    ensures TotalCount(EmptyBuckets<K, E>(n)) == 0
    ensures TotalWeight(EmptyBuckets<K, E>(n)) == n
  {
    if n > 0 {
      assert EmptyBuckets<K, E>(n)[..n - 1] == EmptyBuckets<K, E>(n - 1);
      CountUpdateAll<K, E>(n - 1);
    }
  }

  lemma {:induction false} FlattenCount<K, E>(bs: seq<Bucket<K, E>>)
    requires ChainCounts(bs)
    ensures |Flatten(bs)| == TotalCount(bs)
  {
    if bs != [] { FlattenCount(bs[..|bs| - 1]); }
  }

  /** A table that is still growing is at most 19 times as full as it is wide. */
  lemma {:induction false} LoadBound<K, E>(bs: seq<Bucket<K, E>>)
    requires ChainsBounded(bs)
    ensures TotalCount(bs) <= 10 * TotalWeight(bs) - |bs|
  {
    if bs != [] { LoadBound(bs[..|bs| - 1]); }
  }

  // ----- what an expansion leaves behind -----

  /** The redistribution leaves expand_mult as a function of the final chain length. */
  ghost predicate MultIsQuotient<K, E>(bs: seq<Bucket<K, E>>, ideal: nat)
    requires ideal > 0
  {
    forall i :: 0 <= i < |bs| ==>
      bs[i].expandMult == if bs[i].count > ideal then bs[i].count / ideal else 0
  }

  lemma {:induction false} RelinkAllShape<K, E>(log2: nat, ideal: nat, hs: seq<Handle<K, E>>)
    requires ideal > 0
    ensures MultIsQuotient(RelinkAll(log2, ideal, hs), ideal)
    ensures ChainCounts(RelinkAll(log2, ideal, hs))
    ensures TotalCount(RelinkAll(log2, ideal, hs)) == |hs|
  {
    if hs == [] {
      CountUpdateAll<K, E>(Pow2(log2));
    } else {
      var prefix, h := hs[..|hs| - 1], hs[|hs| - 1];
      RelinkAllShape(log2, ideal, prefix);
      var bs := RelinkAll(log2, ideal, prefix);
      ToBucketInRange(h.hashv, log2);
      var i := ToBucket(h.hashv, |bs|);
      CountUpdate(bs, i, Relink(bs, log2, ideal, h)[i]);
    }
  }

  ghost function Quotients<K, E>(bs: seq<Bucket<K, E>>, ideal: nat): nat
    requires ideal > 0
  {
    if bs == [] then 0 else Quotients(bs[..|bs| - 1], ideal) + bs[|bs| - 1].count / ideal
  }

  lemma {:induction false} QuotientsBound<K, E>(bs: seq<Bucket<K, E>>, ideal: nat)
    requires ideal > 0
    ensures ideal * Quotients(bs, ideal) <= TotalCount(bs)
  {
    if bs != [] {
      var c := bs[|bs| - 1].count;
      QuotientsBound(bs[..|bs| - 1], ideal);
      assert ideal * (Quotients(bs[..|bs| - 1], ideal) + c / ideal)
          == ideal * Quotients(bs[..|bs| - 1], ideal) + ideal * (c / ideal);
    }
  }

  /** A redistributed bucket weighs at most 1 + count / ideal. */
  lemma BucketWeight<K, E>(b: Bucket<K, E>, ideal: nat)
    requires 0 < ideal <= 10 && b.expandMult == if b.count > ideal then b.count / ideal else 0
    ensures Weight(b) <= 1 + b.count / ideal
    ensures b.count <= Threshold(b.expandMult)
  {
    var q := b.count / ideal;
    assert b.count < (q + 1) * ideal;
    assert (q + 1) * ideal <= 10 * (q + 1);
    if b.count == ideal { assert q == 1; }
  }

  lemma {:induction false} RedistributedWeight<K, E>(bs: seq<Bucket<K, E>>, ideal: nat)
    requires 0 < ideal <= 10 && MultIsQuotient(bs, ideal)
    ensures TotalWeight(bs) <= |bs| + Quotients(bs, ideal)
    ensures ChainsBounded(bs)
  {
    if bs != [] {
      RedistributedWeight(bs[..|bs| - 1], ideal);
      BucketWeight(bs[|bs| - 1], ideal);
    }
  }

  /** A redistribution at an ideal length of at most 10 restores the growth potential. */
  lemma RedistributionGrows<K, E>(log2: nat, ideal: nat, hs: seq<Handle<K, E>>)
    requires 0 < ideal <= 10 && |hs| <= ideal * Pow2(log2)
    ensures Growing(RelinkAll(log2, ideal, hs))
  {
    hide RelinkAll, Quotients, Weight, TotalWeight, Pow2;
    var bs := RelinkAll(log2, ideal, hs);
    RelinkAllShape(log2, ideal, hs);
    QuotientsBound(bs, ideal);
    RedistributedWeight(bs, ideal);
    CancelFactor(Quotients(bs, ideal), Pow2(log2), ideal);
  }

  lemma CancelFactor(a: nat, b: nat, d: nat)
    requires d > 0 && d * a <= d * b
    ensures a <= b
  {}

  // ----- the growth bound over all runs -----

  /** Holds of every reachable table: while expansion is not inhibited the potential bounds it. */
  ghost predicate GrowthInvariant<K, E>(t: Table<K, E>) {
    && PowerOfTwo(t.buckets, t.log2)
    && ChainCounts(t.buckets)
    && TotalCount(t.buckets) == t.numItems
    && t.idealChainMaxlen <= 10
    && (!t.noexpand ==> Growing(t.buckets))
  }

  lemma CeilingAtMostTen(c: nat, n: nat, p: nat)
    requires 0 < n <= 20 * p && n <= c * (2 * p) < n + 2 * p
    ensures 1 <= c <= 10
  {}

  /** An expansion of a table at most 20 times as full as it is wide computes an ideal length
      between 1 and 10, and leaves the potential restored. */
  lemma ExpandKeepsGrowth<K, E>(t: Table<K, E>)
    requires PowerOfTwo(t.buckets, t.log2) && ChainCounts(t.buckets) && TotalCount(t.buckets) == t.numItems
    requires 0 < t.numItems <= 20 * |t.buckets|
    ensures 1 <= Expand(t).idealChainMaxlen <= 10
    ensures GrowthInvariant(Expand(t)) && Growing(Expand(t).buckets)
  {
    hide RelinkAll, Flatten, Weight, TotalWeight, Growing, ShiftCeil;
    var hs, ideal := Flatten(t.buckets), ShiftCeil(t.numItems, t.log2 + 1);
    ShiftCeilIsCeiling(t.numItems, t.log2 + 1);
    CeilingAtMostTen(ideal, t.numItems, |t.buckets|);
    FlattenCount(t.buckets);
    RedistributionGrows(t.log2 + 1, ideal, hs);
    RelinkAllShape(t.log2 + 1, ideal, hs);
  }

  /** Until its bucket reaches the threshold, an insertion adds no weight. */
  lemma LinkKeepsGrowth<K, E>(t: Table<K, E>, h: Handle<K, E>)
    requires GrowthInvariant(t)
    ensures ChainCounts(Link(t, h).buckets) && TotalCount(Link(t, h).buckets) == Link(t, h).numItems
    ensures !Triggers(t, h) ==> GrowthInvariant(Link(t, h))
  {
    var i := BucketOf(t, h);
    var b := Link(t, h).buckets[i];
    CountUpdate(t.buckets, i, b);
    WeightUpdate(t.buckets, i, b);
  }

  /** Every insertion keeps the invariant, and an expansion it causes has a usable ideal length. */
  lemma InsertKeepsGrowth<K, E>(t: Table<K, E>, h: Handle<K, E>)
    requires GrowthInvariant(t)
    ensures GrowthInvariant(Insert(t, h))
    ensures Triggers(t, h) ==> 1 <= Insert(t, h).idealChainMaxlen <= 10
  {
    LinkKeepsGrowth(t, h);
    hide TotalCount, Expand, ChainCounts;
    if Triggers(t, h) {
      LoadBound(t.buckets);
      ExpandKeepsGrowth(Link(t, h));
    }
  }

  lemma DeleteKeepsGrowth<K, E>(t: Table<K, E>, h: Handle<K, E>)
    requires GrowthInvariant(t) && t.numItems > 0 && h in t.buckets[BucketOf(t, h)].chain
    ensures Delete(t, h).Some? ==> GrowthInvariant(Delete(t, h).value)
  {
    var i := BucketOf(t, h);
    var b := t.buckets[i];
    var b' := Bucket(Remove(b.chain, h), b.count - 1, b.expandMult);
    RemoveOnce(b.chain, h);
    CountUpdate(t.buckets, i, b');
    WeightUpdate(t.buckets, i, b');
  }
}
