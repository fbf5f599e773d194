/** The hash table the address cache, the coalesce table and the socket table are kept in.
    A bucket's chain and the app-order list are sequences; the hash function is a parameter. */
module UtHash {
  import opened Bits
  import opened Options
  import opened Sequences

  /** The handle embedded in an element: its key, its stored hash and the element itself. */
  datatype Handle<K, E> = Handle(key: K, hashv: nat, elem: E)
  datatype Bucket<K, E> = Bucket(chain: seq<Handle<K, E>>, count: nat, expandMult: nat)
  datatype Table<K, E> = Table(buckets: seq<Bucket<K, E>>, log2: nat, numItems: nat, order: seq<Handle<K, E>>,
                               idealChainMaxlen: nat, nonidealItems: nat, ineffExpands: nat, noexpand: bool)

  function EmptyBuckets<K, E>(n: nat): (bs: seq<Bucket<K, E>>)
    ensures |bs| == n && forall i :: 0 <= i < n ==> bs[i] == Bucket([], 0, 0)
  {
    seq(n, _ => Bucket([], 0, 0))
  }

  /** HASH_MAKE_TABLE: 32 empty buckets. */
  function MakeTable<K, E>(): Table<K, E> {
    Table(EmptyBuckets(32), 5, 0, [], 0, 0, 0, false)
  }

  /** HASH_TO_BKT: the mask that replaces a remainder. */
  function ToBucket(hashv: nat, numBuckets: nat): nat
    requires numBuckets > 0
  {
    And(hashv, numBuckets - 1)
  }

  ghost predicate PowerOfTwo<K, E>(bs: seq<Bucket<K, E>>, log2: nat) {
    |bs| == Pow2(log2)
  }

  lemma ToBucketInRange(hashv: nat, k: nat)
    ensures ToBucket(hashv, Pow2(k)) == hashv % Pow2(k) < Pow2(k)
  {
    MaskIsModulo(hashv, k);
  }

  /** The chain length at which an insertion triggers an expansion. */
  function Threshold(expandMult: nat): nat { 10 * (expandMult + 1) }

  /** One step of the redistribution loop: h goes to the head of its new chain. */
  function Relink<K, E>(bs: seq<Bucket<K, E>>, log2: nat, ideal: nat, h: Handle<K, E>): (r: seq<Bucket<K, E>>)
    requires PowerOfTwo(bs, log2) && ideal > 0
    ensures |r| == |bs|
  {
    ToBucketInRange(h.hashv, log2);
    var i := ToBucket(h.hashv, |bs|);
    var b := bs[i];
    var count := b.count + 1;
    bs[i := Bucket([h] + b.chain, count, if count > ideal then count / ideal else b.expandMult)]
  }

  function RelinkAll<K, E>(log2: nat, ideal: nat, hs: seq<Handle<K, E>>): (r: seq<Bucket<K, E>>)
    requires ideal > 0
    ensures |r| == Pow2(log2)
  {
    if hs == [] then EmptyBuckets(Pow2(log2))
    else Relink(RelinkAll(log2, ideal, hs[..|hs| - 1]), log2, ideal, hs[|hs| - 1])
  }

  /** All chains, bucket by bucket: the order in which the redistribution loop visits items. */
  function Flatten<K, E>(bs: seq<Bucket<K, E>>): seq<Handle<K, E>> {
    if bs == [] then [] else Flatten(bs[..|bs| - 1]) + bs[|bs| - 1].chain
  }

  /** Items beyond the ideal length of their chains. */
  function Excess<K, E>(bs: seq<Bucket<K, E>>, ideal: nat): nat {
    if bs == [] then 0
    else
      var b := bs[|bs| - 1];
      Excess(bs[..|bs| - 1], ideal) + if b.count > ideal then b.count - ideal else 0
  }

  /** HASH_EXPAND_BUCKETS */
  function Expand<K, E>(t: Table<K, E>): (r: Table<K, E>)
    requires t.numItems > 0 && PowerOfTwo(t.buckets, t.log2)
    ensures PowerOfTwo(r.buckets, r.log2) && |r.buckets| == 2 * |t.buckets|
    ensures r.order == t.order && r.numItems == t.numItems && r.log2 == t.log2 + 1
  {
    var ideal := ShiftCeil(t.numItems, t.log2 + 1);
    IdealPositive(t.numItems, t.log2 + 1);
    var bs := RelinkAll(t.log2 + 1, ideal, Flatten(t.buckets));
    var nonideal := Excess(bs, ideal);
    var ineff := if nonideal > ShiftRight(t.numItems, 1) then t.ineffExpands + 1 else 0;
    Table(bs, t.log2 + 1, t.numItems, t.order, ideal, nonideal, ineff, t.noexpand || ineff > 1)
  }

  lemma IdealPositive(n: nat, k: nat)
    requires n > 0
    ensures ShiftCeil(n, k) > 0
  {
    ShiftCeilIsCeiling(n, k);
  }

  /** HASH_ADD_TO_BKT without the expansion it may trigger. */
  function Link<K, E>(t: Table<K, E>, h: Handle<K, E>): (r: Table<K, E>)
    requires PowerOfTwo(t.buckets, t.log2)
    ensures PowerOfTwo(r.buckets, r.log2)
  {
    var i := BucketOf(t, h);
    var b := t.buckets[i];
    t.(buckets := t.buckets[i := Bucket([h] + b.chain, b.count + 1, b.expandMult)],
       order := t.order + [h], numItems := t.numItems + 1)
  }

  /** The insertion that reached its bucket's threshold doubles the table, unless inhibited. */
  predicate Triggers<K, E>(t: Table<K, E>, h: Handle<K, E>)
    requires PowerOfTwo(t.buckets, t.log2)
  {
    var b := Link(t, h).buckets[BucketOf(t, h)];
    b.count >= Threshold(b.expandMult) && !t.noexpand
  }

  /** HASH_ADD_KEYPTR on an existing table. */
  function Insert<K, E>(t: Table<K, E>, h: Handle<K, E>): (r: Table<K, E>)
    requires PowerOfTwo(t.buckets, t.log2)
    ensures PowerOfTwo(r.buckets, r.log2)
  {
    if Triggers(t, h) then Expand(Link(t, h)) else Link(t, h)
  }

  /** HASH_ADD_KEYPTR: a NULL head gets a fresh table first. */
  function Add<K, E>(t: Option<Table<K, E>>, h: Handle<K, E>): (r: Option<Table<K, E>>)
    requires t.Some? ==> PowerOfTwo(t.value.buckets, t.value.log2)
    ensures r.Some? && PowerOfTwo(r.value.buckets, r.value.log2)
  {
    assert PowerOfTwo(MakeTable<K, E>().buckets, 5);
    Some(Insert(if t.Some? then t.value else MakeTable(), h))
  }

  /** HASH_DELETE of an element that is in the table: the last element takes the table with it. */
  function Delete<K(==), E(==)>(t: Table<K, E>, h: Handle<K, E>): (r: Option<Table<K, E>>)
    requires PowerOfTwo(t.buckets, t.log2) && ChainCounts(t.buckets) && t.numItems > 0
    requires h in t.buckets[BucketOf(t, h)].chain
    ensures r.Some? ==> PowerOfTwo(r.value.buckets, r.value.log2)
  {
    if |t.order| == 1 then None
    else
      var i := BucketOf(t, h);
      var b := t.buckets[i];
      Some(t.(buckets := t.buckets[i := Bucket(Remove(b.chain, h), b.count - 1, b.expandMult)],
              order := Remove(t.order, h), numItems := t.numItems - 1))
  }

  function BucketOf<K, E>(t: Table<K, E>, h: Handle<K, E>): (i: nat)
    requires PowerOfTwo(t.buckets, t.log2)
    ensures i < |t.buckets|
  {
    ToBucketInRange(h.hashv, t.log2);
    ToBucket(h.hashv, |t.buckets|)
  }

  /** Each bucket's counter is the length of its chain. */
  ghost predicate ChainCounts<K, E>(bs: seq<Bucket<K, E>>) {
    forall i :: 0 <= i < |bs| ==> bs[i].count == |bs[i].chain|
  }

  /** HASH_FIND_IN_BKT */
  function FindIn<K(==), E>(chain: seq<Handle<K, E>>, key: K): Option<Handle<K, E>> {
    if chain == [] then None else if chain[0].key == key then Some(chain[0]) else FindIn(chain[1..], key)
  }

  /** HASH_FIND */
  function Find<K(==), E>(t: Option<Table<K, E>>, hash: K -> nat, key: K): Option<Handle<K, E>>
    requires t.Some? ==> PowerOfTwo(t.value.buckets, t.value.log2)
  {
    if t.None? then None
    else
      ToBucketInRange(hash(key), t.value.log2);
      FindIn(t.value.buckets[ToBucket(hash(key), |t.value.buckets|)].chain, key)
  }
}
