/** A hash function that sends every key to the same bucket inhibits expansion: from then on no
    bound holds for the lengths of chains. */
module UtHashInhibited {
  import opened Bits
  import opened Options
  import opened UtHash
  import opened UtHashGrowth
  import opened UtHashAgreement

  /** n additions of different keys. */
  function Adds<E>(n: nat, e: E): (ops: seq<Op<int, E>>)
    ensures |ops| == n
  {
    if n == 0 then [] else Adds(n - 1, e) + [AddOp(n - 1, e)]
  }

  lemma AddsSnoc<E>(n: nat, e: E)
    ensures Adds(n + 1, e)[..n] == Adds(n, e) && Adds(n + 1, e)[n] == AddOp(n, e)
  {}

  lemma {:induction false} AddsLegal<E>(n: nat, e: E)
    ensures Legal(Adds(n, e)) && forall k: int :: k in RunMap(Adds(n, e)) <==> 0 <= k < n
  {
    if n > 0 {
      AddsLegal(n - 1, e);
      AddsSnoc(n - 1, e);
      assert RunMap(Adds(n, e)) == RunMap(Adds(n - 1, e))[n - 1 := e];
    }
  }

  ghost predicate OneHash(hash: int -> nat, c: nat) { forall k: int :: hash(k) == c }

  lemma {:induction false} OneCounts<E>(bs: seq<Bucket<int, E>>, b: nat, ideal: nat)
    requires forall i :: 0 <= i < |bs| && i != b ==> bs[i].count == 0
    ensures TotalCount(bs) == if b < |bs| then bs[b].count else 0
    ensures Excess(bs, ideal) == if b < |bs| && bs[b].count > ideal then bs[b].count - ideal else 0
  {
    if bs != [] { OneCounts(bs[..|bs| - 1], b, ideal); }
  }

  lemma OnlyHere<E>(t: Table<int, E>, hash: int -> nat, c: nat, i: nat)
    requires Consistent(t, hash) && OneHash(hash, c) && i < |t.buckets| && t.buckets[i].chain != []
    ensures i == ToBucket(c, |t.buckets|)
  {
    var h := t.buckets[i].chain[0];
    assert h in t.buckets[i].chain && h.hashv == hash(h.key) && BucketOf(t, h) == i;
    var k: int := h.key;
    assert hash(k) == c && h.hashv == c;
  }

  /** Then one chain holds every item. */
  lemma OneChain<E>(t: Table<int, E>, hash: int -> nat, c: nat)
    requires Consistent(t, hash) && OneHash(hash, c)
    ensures var b := ToBucket(c, |t.buckets|);
            && b < |t.buckets| && t.buckets[b].count == |t.buckets[b].chain| == t.numItems
            && Excess(t.buckets, 1) == if t.numItems > 1 then t.numItems - 1 else 0
  {
    ToBucketInRange(c, t.log2);
    var b := ToBucket(c, |t.buckets|);
    forall i | 0 <= i < |t.buckets| && i != b ensures t.buckets[i].count == 0 {
      if t.buckets[i].chain != [] { OnlyHere(t, hash, c, i); }
    }
    OneCounts(t.buckets, b, 1);
  }

  /** The table after n additions: 32 buckets, 64 from the tenth item on, 128 from the 110th. */
  ghost predicate Stage<E>(t: Table<int, E>, c: nat, n: nat) {
    && t.numItems == n
    && t.log2 == (if n < 10 then 5 else if n < 110 then 6 else 7)
    && t.buckets != [] && |t.buckets| == Pow2(t.log2)
    && var b := ToBucket(c, |t.buckets|);
    && b < |t.buckets|
    && (n < 110 ==> t.buckets[b].expandMult == if n < 10 then 0 else 10)
    && t.ineffExpands == (if n < 10 then 0 else if n < 110 then 1 else 2)
    && (t.noexpand <==> n >= 110)
  }

  /** The expansions at the tenth and at the 110th item leave all of them in one chain. */
  lemma ExpandStage<E>(t: Table<int, E>, hash: int -> nat, c: nat)
    requires Consistent(t, hash) && OneHash(hash, c) && !t.noexpand
    requires || (t.numItems == 10 && t.log2 == 5 && t.ineffExpands == 0)
             || (t.numItems == 110 && t.log2 == 6 && t.ineffExpands == 1)
    ensures Stage(Expand(t), c, t.numItems)
  {
    hide Consistent, Excess, Flatten, RelinkAll, And;
    ExpandKeepsConsistent(t, hash);
    OneChain(Expand(t), hash, c);
    HalfByShift(t.numItems);
    ExpandMults(t, hash);
  }

  lemma ExpandMults<E>(t: Table<int, E>, hash: int -> nat)
    requires Consistent(t, hash) && 0 < t.numItems <= Pow2(t.log2 + 1)
    ensures Expand(t).idealChainMaxlen == 1 && MultIsQuotient(Expand(t).buckets, 1)
  {
    hide RelinkAll, Flatten, ShiftCeil, Excess, MultIsQuotient, Placed, TotalCount;
    IdealOne(t.numItems, t.log2 + 1);
    RelinkAllShape(t.log2 + 1, 1, Flatten(t.buckets));
  }

  lemma IdealOne(n: nat, k: nat)
    requires 0 < n <= Pow2(k)
    ensures ShiftCeil(n, k) == 1
  {
    hide ShiftCeil;
    ShiftCeilIsCeiling(n, k);
  }

  /** One more item: an expansion at the tenth and at the 110th. */
  lemma AddStage<E>(t: Option<Table<int, E>>, hash: int -> nat, c: nat, n: nat, e: E)
    requires OneHash(hash, c)
    requires t.Some? ==> Consistent(t.value, hash) && Stage(t.value, c, n) && n !in Contents(t.value.order)
    requires t.None? <==> n == 0
    ensures Stage(Add(t, Handle(n, c, e)).value, c, n + 1)
  {
    hide Consistent, Contents, Expand, And;
    var h: Handle<int, E> := Handle(n, c, e);
    assert PowerOfTwo(MakeTable<int, E>().buckets, 5);
    var t0 := if t.Some? then t.value else MakeTable();
    FreshStage<E>(c);
    LinkKeepsConsistent(t0, hash, h);
    OneChain(Link(t0, h), hash, c);
    if Triggers(t0, h) { ExpandStage(Link(t0, h), hash, c); }
  }

  lemma FreshStage<E>(c: nat)
    ensures Stage(MakeTable<int, E>(), c, 0) && Contents(MakeTable<int, E>().order) == map[]
  {
    ToBucketInRange(c, 5);
  }

  /** With such a hash function expansion is inhibited from the 110th item on, whatever it is; the
      table then stays at 128 buckets, and one chain holds all n items. */
  lemma {:induction false} OneHashInhibits<E>(n: nat, e: E, hash: int -> nat, c: nat)
    requires OneHash(hash, c) && n > 0
    ensures Legal(Adds(n, e)) && RunTable(Adds(n, e), hash).Some?
    ensures var t := RunTable(Adds(n, e), hash).value;
            && Stage(t, c, n) && (t.noexpand <==> n >= 110)
            && |t.buckets[ToBucket(c, |t.buckets|)].chain| == t.numItems == n
  {
    hide Consistent, GrowthInvariant, Contents, Stage;
    AddsLegal(n, e);
    AddsLegal(n - 1, e);
    AddsSnoc(n - 1, e);
    if n > 1 { OneHashInhibits(n - 1, e, hash, c); }
    var t := RunTable(Adds(n - 1, e), hash);
    AddStage(t, hash, c, n - 1, e);
    OneChain(RunTable(Adds(n, e), hash).value, hash, c);
    StageCounts(RunTable(Adds(n, e), hash).value, c, n);
  }

  lemma StageCounts<E>(t: Table<int, E>, c: nat, n: nat)
    requires Stage(t, c, n)
    ensures t.numItems == n && (t.noexpand <==> n >= 110)
  {}
}
