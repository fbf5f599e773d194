/** The uthash macros as methods that rewrite the bucket array and the table's counters in place. */
module HashTables {
  import opened Bits
  import opened Options
  import opened Sequences
  import opened UtHash
  import opened UtHashGrowth
  import opened UtHashAgreement

  lemma {:induction false} ExcessUpdate<K, E>(bs: seq<Bucket<K, E>>, i: nat, b: Bucket<K, E>, ideal: nat)
    requires i < |bs| && b.count == bs[i].count + 1
    ensures Excess(bs[i := b], ideal) == Excess(bs, ideal) + if b.count > ideal then 1 else 0
  {
    var last := |bs| - 1;
    if i < last {
      assert bs[i := b][..last] == bs[..last][i := b];
      ExcessUpdate(bs[..last], i, b, ideal);
    } else {
      assert bs[i := b][..last] == bs[..last];
    }
  }

  lemma {:induction false} ExcessOfEmpty<K, E>(n: nat, ideal: nat)
    ensures Excess(EmptyBuckets<K, E>(n), ideal) == 0
  {
    if n > 0 {
      assert EmptyBuckets<K, E>(n)[..n - 1] == EmptyBuckets<K, E>(n - 1);
      ExcessOfEmpty<K, E>(n - 1, ideal);
    }
  }

  lemma NeverEmpty<K, E>(t: Table<K, E>, hash: K -> nat)
    requires Consistent(t, hash)
    ensures PowerOfTwo(t.buckets, t.log2) && ChainCounts(t.buckets) && |t.order| > 0 && t.numItems > 0
  {}

  lemma Doubled(n: nat, k: nat)
    requires n == Pow2(k)
    ensures 2 * n == Pow2(k + 1)
  {}

  lemma RelinkAllSnoc<K, E>(log2: nat, ideal: nat, hs: seq<Handle<K, E>>, h: Handle<K, E>)
    requires ideal > 0
    ensures RelinkAll(log2, ideal, hs + [h]) == Relink(RelinkAll(log2, ideal, hs), log2, ideal, h)
  {}

  lemma FlattenSnoc<K, E>(bs: seq<Bucket<K, E>>, i: nat)
    requires i < |bs|
    ensures Flatten(bs[..i + 1]) == Flatten(bs[..i]) + bs[i].chain
  {
    assert bs[..i + 1][..i] == bs[..i];
  }

  class HashTable<K(==), E(==)> {
    const hash: K -> nat
    /** False while the head pointer is NULL; the other fields mean nothing then. */
    var live: bool
    var buckets: array<Bucket<K, E>>
    var log2NumBuckets: nat
    var numItems: nat
    var order: seq<Handle<K, E>>
    var idealChainMaxlen: nat
    var nonidealItems: nat
    var ineffExpands: nat
    var noexpand: bool

    ghost function Fields(): Table<K, E>
      reads this, buckets
    {
      Table(buckets[..], log2NumBuckets, numItems, order, idealChainMaxlen, nonidealItems, ineffExpands, noexpand)
    }

    ghost function View(): Option<Table<K, E>>
      reads this, buckets
    {
      if live then Some(Fields()) else None
    }

    ghost predicate Valid()
      reads this, buckets
    {
      View().Some? ==> Consistent(View().value, hash)
    }

    /** The map the table stands for. */
    ghost function Map(): map<K, E>
      reads this, buckets
    {
      if live then Contents(order) else map[]
    }

    constructor (hash: K -> nat)
      ensures Valid() && fresh(buckets) && this.hash == hash && View() == None
    {
      this.hash := hash;
      live := false;
      buckets := new Bucket<K, E>[0];
    }

    method MakeEmpty()
      modifies this
      ensures fresh(buckets) && live && Fields() == MakeTable()
    {
      buckets := new Bucket<K, E>[32](_ => Bucket([], 0, 0));
      log2NumBuckets, numItems, order := 5, 0, [];
      idealChainMaxlen, nonidealItems, ineffExpands, noexpand, live := 0, 0, 0, false, true;
      assert buckets[..] == EmptyBuckets(32);
    }

    /** The redistribution loop of HASH_EXPAND_BUCKETS: it counts the non-ideal items as it goes. */
    method Redistribute(log2: nat, ideal: nat) returns (newBuckets: array<Bucket<K, E>>, nonideal: nat)
      requires 2 * buckets.Length == Pow2(log2) && ideal > 0
      ensures fresh(newBuckets)
      ensures newBuckets[..] == RelinkAll(log2, ideal, Flatten(buckets[..]))
      ensures nonideal == Excess(newBuckets[..], ideal)
    {
      newBuckets := new Bucket<K, E>[2 * buckets.Length](_ => Bucket([], 0, 0));
      nonideal := 0;
      assert newBuckets[..] == EmptyBuckets(Pow2(log2));
      ExcessOfEmpty<K, E>(Pow2(log2), ideal);
      assert Flatten(buckets[..0]) == [];
      hide Excess, RelinkAll, Flatten;
      for i := 0 to buckets.Length
        modifies newBuckets
        invariant newBuckets[..] == RelinkAll(log2, ideal, Flatten(buckets[..i]))
        invariant nonideal == Excess(newBuckets[..], ideal)
      {
        FlattenSnoc(buckets[..], i);
        assert buckets[..][..i] == buckets[..i] && buckets[..][..i + 1] == buckets[..i + 1];
        nonideal := RelinkChain(newBuckets, log2, ideal, nonideal, buckets[i].chain, Flatten(buckets[..i]));
      }
      assert buckets[..buckets.Length] == buckets[..];
    }

    /** The ideal chain length for the doubled table, by shift and mask. */
    method ComputeIdeal()
      requires PowerOfTwo(buckets[..], log2NumBuckets) && numItems > 0
      modifies `idealChainMaxlen
      ensures idealChainMaxlen == ShiftCeil(numItems, log2NumBuckets + 1) > 0
    {
      IdealPositive(numItems, log2NumBuckets + 1);
      assert 2 * buckets.Length == Pow2(log2NumBuckets + 1);
      idealChainMaxlen := ShiftRight(numItems, log2NumBuckets + 1)
                        + if And(numItems, 2 * buckets.Length - 1) != 0 then 1 else 0;
    }

    /** HASH_EXPAND_BUCKETS */
    method ExpandBuckets()
      requires live && PowerOfTwo(buckets[..], log2NumBuckets) && numItems > 0
      modifies this
      ensures fresh(buckets) && live && Fields() == Expand(old(Fields()))
    {
      hide RelinkAll, Flatten, Excess, And, ShiftRight, ShiftCeil, Pow2;
      Doubled(buckets.Length, log2NumBuckets);
      ComputeIdeal();
      var newBuckets;
      newBuckets, nonidealItems := Redistribute(log2NumBuckets + 1, idealChainMaxlen);
      buckets := newBuckets;
      log2NumBuckets := log2NumBuckets + 1;
      JudgeExpansion();
    }

    /** Two ineffective expansions in a row inhibit any further one. */
    method JudgeExpansion()
      modifies `ineffExpands, `noexpand
      ensures ineffExpands == if nonidealItems > ShiftRight(numItems, 1) then old(ineffExpands) + 1 else 0
      ensures noexpand == (old(noexpand) || ineffExpands > 1)
    {
      ineffExpands := if nonidealItems > ShiftRight(numItems, 1) then ineffExpands + 1 else 0;
      if ineffExpands > 1 {
        noexpand := true;
      }
    }

    /** The inner loop over one old chain. */
    static method RelinkChain(bkts: array<Bucket<K, E>>, ghost log2: nat, ideal: nat, nonideal: nat,
                              chain: seq<Handle<K, E>>, ghost visited: seq<Handle<K, E>>)
      returns (n: nat)
      requires ideal > 0 && bkts[..] == RelinkAll(log2, ideal, visited) && nonideal == Excess(bkts[..], ideal)
      modifies bkts
      ensures bkts[..] == RelinkAll(log2, ideal, visited + chain)
      ensures n == Excess(bkts[..], ideal)
    {
      hide Excess, Relink, RelinkAll, Pow2;
      n := nonideal;
      assert visited + chain[..0] == visited;
      for j := 0 to |chain|
        invariant bkts[..] == RelinkAll(log2, ideal, visited + chain[..j])
        invariant n == Excess(bkts[..], ideal)
      {
        n := RelinkOne(bkts, log2, ideal, n, chain[j]);
        RelinkAllSnoc(log2, ideal, visited + chain[..j], chain[j]);
        assert visited + chain[..j + 1] == visited + chain[..j] + [chain[j]];
      }
      assert chain[..|chain|] == chain;
    }

    /** One item's move to its new chain, with the counting that goes with it. */
    static method RelinkOne(bkts: array<Bucket<K, E>>, ghost log2: nat, ideal: nat, nonideal: nat, h: Handle<K, E>)
      returns (n: nat)
      requires PowerOfTwo(bkts[..], log2) && ideal > 0 && nonideal == Excess(bkts[..], ideal)
      modifies bkts
      ensures bkts[..] == Relink(old(bkts[..]), log2, ideal, h)
      ensures n == Excess(bkts[..], ideal)
    {
      ToBucketInRange(h.hashv, log2);
      var bkt := ToBucket(h.hashv, bkts.Length);
      var b := bkts[bkt];
      var count := b.count + 1;
      n := nonideal;
      var mult := b.expandMult;
      if count > ideal {
        n := n + 1;
        mult := count / ideal;
      }
      ExcessUpdate(bkts[..], bkt, Bucket([h] + b.chain, count, mult), ideal);
      bkts[bkt] := Bucket([h] + b.chain, count, mult);
    }

    /** The part of HASH_ADD_KEYPTR after the table exists, HASH_ADD_TO_BKT included. */
    method InsertHandle(h: Handle<K, E>)
      requires live && PowerOfTwo(buckets[..], log2NumBuckets)
      modifies this, buckets
      ensures live && (buckets == old(buckets) || fresh(buckets))
      ensures Fields() == Insert(old(Fields()), h)
    {
      ghost var table := Fields();
      order := order + [h];
      numItems := numItems + 1;
      ToBucketInRange(h.hashv, log2NumBuckets);
      var bkt := ToBucket(h.hashv, buckets.Length);
      var b := buckets[bkt];
      buckets[bkt] := Bucket([h] + b.chain, b.count + 1, b.expandMult);
      hide Expand, And, Pow2;
      assert Fields() == Link(table, h);
      if b.count + 1 >= Threshold(b.expandMult) && !noexpand {
        ExpandBuckets();
      }
    }

    /** HASH_ADD_KEYPTR of a key the caller knows to be absent. */
    method Add(key: K, elem: E)
      requires Valid() && key !in Map()
      modifies this, buckets
      ensures Valid() && (buckets == old(buckets) || fresh(buckets))
      ensures View() == UtHash.Add(old(View()), Handle(key, hash(key), elem))
      ensures Map() == old(Map())[key := elem]
    {
      var h := Handle(key, hash(key), elem);
      AddAgrees(View(), hash, h);
      assert PowerOfTwo(MakeTable<K, E>().buckets, 5);
      hide Insert, Contents, Pow2, MakeTable;
      if !live {
        MakeEmpty();
      }
      InsertHandle(h);
    }

    /** HASH_FIND */
    method Find(key: K) returns (found: Option<Handle<K, E>>)
      requires Valid()
      ensures found == UtHash.Find(View(), hash, key)
      ensures match found
              case Some(h) => key in Map() && h.key == key && h in order && h.elem == Map()[key]
              case None => key !in Map()
    {
      if !live { return None; }
      FindAgrees(Fields(), hash, key);
      ToBucketInRange(hash(key), log2NumBuckets);
      var chain := buckets[ToBucket(hash(key), buckets.Length)].chain;
      var i := 0;
      while i < |chain|
        invariant i <= |chain|
        invariant FindIn(chain, key) == FindIn(chain[i..], key)
      {
        if chain[i].key == key { return Some(chain[i]); }
        i := i + 1;
      }
      return None;
    }

    /** HASH_DELETE of an element of the table. */
    method Delete(h: Handle<K, E>)
      requires Valid() && live && h in order
      modifies this, buckets
      ensures Valid() && buckets == old(buckets)
      ensures h in old(buckets[..])[BucketOf(old(Fields()), h)].chain
      ensures View() == UtHash.Delete(old(Fields()), h)
      ensures Map() == old(Map()) - {h.key}
    {
      hide Consistent, Contents, And, Pow2;
      ghost var before := Fields();
      DeleteAgrees(before, hash, h);
      NeverEmpty(before, hash);
      if |order| == 1 {
        live := false;
        return;
      }
      ToBucketInRange(h.hashv, log2NumBuckets);
      var bkt := ToBucket(h.hashv, buckets.Length);
      var b := buckets[bkt];
      order := Remove(order, h);
      buckets[bkt] := Bucket(Remove(b.chain, h), b.count - 1, b.expandMult);
      numItems := numItems - 1;
      assert Fields() == UtHash.Delete(before, h).value;
    }

    /** HASH_DELETE of the head element, the step of every loop that empties a table. */
    method DeleteHead()
      requires Valid() && live
      modifies this, buckets
      ensures Valid() && buckets == old(buckets)
      ensures |Map()| < |old(Map())| && Map().Keys < old(Map()).Keys
      ensures Map() == old(Map()) - (old(Map()).Keys - Map().Keys)
    {
      var h := order[0];
      InContents(order);
      assert h in order && h.key in Map();
      hide Contents, UtHash.Delete, Consistent;
      Delete(h);
      assert |Map()| < |old(Map())| by { SmallerMap(old(Map()), h.key); }
    }
  }

  lemma SmallerMap<K, E>(m: map<K, E>, k: K)
    requires k in m
    ensures |m - {k}| < |m|
  {}
}
