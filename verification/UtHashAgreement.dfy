/** The hash table agrees with a plain map over every run of adds and deletes. */
module UtHashAgreement {
  import opened Bits
  import opened Options
  import opened Sequences
  import opened UtHash
  import opened UtHashGrowth

  ghost predicate DistinctKeys<K, E>(s: seq<Handle<K, E>>) {
    forall i, j :: 0 <= i < j < |s| ==> s[i].key != s[j].key
  }

  /** Every element of a chain carries its key's hash and sits where the mask sends it. */
  ghost predicate Placed<K, E>(t: Table<K, E>, hash: K -> nat)
    requires PowerOfTwo(t.buckets, t.log2)
  {
    forall i, h :: 0 <= i < |t.buckets| && h in t.buckets[i].chain ==>
      h.hashv == hash(h.key) && BucketOf(t, h) == i
  }

  /** Bucket chains, app-order list and counters describe the same elements. */
  ghost predicate Consistent<K, E>(t: Table<K, E>, hash: K -> nat) {
    && PowerOfTwo(t.buckets, t.log2)
    && ChainCounts(t.buckets)
    && TotalCount(t.buckets) == t.numItems == |t.order|
    && t.order != []
    && multiset(Flatten(t.buckets)) == multiset(t.order)
    && Placed(t, hash)
    && DistinctKeys(t.order)
  }

  /** The plain map the app-order list stands for. */
  function Contents<K, E>(order: seq<Handle<K, E>>): map<K, E> {
    if order == [] then map[]
    else Contents(order[..|order| - 1])[order[|order| - 1].key := order[|order| - 1].elem]
  }

  // ----- sequences and chains -----

  lemma {:induction false} InContents<K, E>(s: seq<Handle<K, E>>)
    requires DistinctKeys(s)
    ensures forall h :: h in s ==> h.key in Contents(s) && Contents(s)[h.key] == h.elem
    ensures forall k :: k in Contents(s) ==> exists h :: h in s && h.key == k
  {
    if s != [] {
      var prefix, last := s[..|s| - 1], s[|s| - 1];
      InContents(prefix);
      forall h | h in s ensures h.key in Contents(s) && Contents(s)[h.key] == h.elem {
        var i :| 0 <= i < |s| && s[i] == h;
        if i < |s| - 1 { assert prefix[i] == h; }
      }
      forall k | k in Contents(s) ensures exists h :: h in s && h.key == k {
        if k == last.key {
          assert last in s;
        } else {
          assert Contents(s) == Contents(prefix)[last.key := last.elem] && k in Contents(prefix);
          var h :| h in prefix && h.key == k;
          assert h in s;
        }
      }
    }
  }

  lemma {:induction false} FlattenUpdate<K, E>(bs: seq<Bucket<K, E>>, i: nat, b: Bucket<K, E>)
    requires i < |bs|
    ensures multiset(Flatten(bs[i := b])) + multiset(bs[i].chain) == multiset(Flatten(bs)) + multiset(b.chain)
  {
    var last := |bs| - 1;
    var bs' := bs[i := b];
    if i < last {
      assert bs'[..last] == bs[..last][i := b];
      FlattenUpdate(bs[..last], i, b);
      calc {
        multiset(Flatten(bs')) + multiset(bs[i].chain);
        (multiset(Flatten(bs'[..last])) + multiset(bs[last].chain)) + multiset(bs[i].chain);
        (multiset(Flatten(bs'[..last])) + multiset(bs[i].chain)) + multiset(bs[last].chain);
        (multiset(Flatten(bs[..last])) + multiset(b.chain)) + multiset(bs[last].chain);
        multiset(Flatten(bs)) + multiset(b.chain);
      }
    } else {
      assert bs'[..last] == bs[..last];
    }
  }

  /** Pushing h on a chain adds h to the table's elements. */
  lemma FlattenPush<K, E>(bs: seq<Bucket<K, E>>, i: nat, b: Bucket<K, E>, h: Handle<K, E>)
    requires i < |bs| && b.chain == [h] + bs[i].chain
    ensures multiset(Flatten(bs[i := b])) == multiset(Flatten(bs)) + multiset{h}
  {
    hide Flatten;
    FlattenUpdate(bs, i, b);
    assert multiset(b.chain) == multiset{h} + multiset(bs[i].chain);
    CancelCommon(multiset(Flatten(bs[i := b])), multiset(Flatten(bs)) + multiset{h}, multiset(bs[i].chain));
  }

  lemma CancelCommon<T>(x: multiset<T>, y: multiset<T>, c: multiset<T>)
    requires x + c == y + c
    ensures x == y
  {
    forall e ensures x[e] == y[e] {
      assert (x + c)[e] == (y + c)[e];
    }
  }

  lemma {:induction false} InFlatten<K, E>(bs: seq<Bucket<K, E>>, h: Handle<K, E>)
    ensures h in Flatten(bs) <==> exists i :: 0 <= i < |bs| && h in bs[i].chain
  {
    if bs != [] {
      var last := |bs| - 1;
      InFlatten(bs[..last], h);
      if h in Flatten(bs[..last]) {
        var i :| 0 <= i < last && h in bs[..last][i].chain;
        assert h in bs[i].chain;
      }
    }
  }

  lemma {:induction false} FlattenEmpty<K, E>(n: nat)
    ensures Flatten(EmptyBuckets<K, E>(n)) == []
  {
    if n > 0 {
      assert EmptyBuckets<K, E>(n)[..n - 1] == EmptyBuckets<K, E>(n - 1);
      FlattenEmpty<K, E>(n - 1);
    }
  }

  /** An element of the table is in the chain its hash selects. */
  lemma InItsChain<K, E>(t: Table<K, E>, hash: K -> nat, h: Handle<K, E>)
    requires Consistent(t, hash) && h in t.order
    ensures h.hashv == hash(h.key) && h in t.buckets[BucketOf(t, h)].chain
  {
    assert h in multiset(Flatten(t.buckets));
    InFlatten(t.buckets, h);
  }

  lemma InOrder<K, E>(t: Table<K, E>, hash: K -> nat, i: nat, h: Handle<K, E>)
    requires Consistent(t, hash) && i < |t.buckets| && h in t.buckets[i].chain
    ensures h in t.order
  {
    InFlatten(t.buckets, h);
    assert h in multiset(t.order);
  }

  // ----- HASH_FIND -----

  lemma {:induction false} FindInChain<K, E>(chain: seq<Handle<K, E>>, key: K)
    ensures match FindIn(chain, key)
            case Some(h) => h in chain && h.key == key
            case None => forall h :: h in chain ==> h.key != key
  {
    if chain != [] && chain[0].key != key { FindInChain(chain[1..], key); }
  }

  /** HASH_FIND returns the element the map holds under the key, and NULL exactly when there is none. */
  lemma FindAgrees<K, E>(t: Table<K, E>, hash: K -> nat, key: K)
    requires Consistent(t, hash)
    ensures match Find(Some(t), hash, key)
            case Some(h) => h in t.order && h.key == key && key in Contents(t.order) && h.elem == Contents(t.order)[key]
            case None => key !in Contents(t.order)
  {
    ToBucketInRange(hash(key), t.log2);
    var i := ToBucket(hash(key), |t.buckets|);
    FindInChain(t.buckets[i].chain, key);
    InContents(t.order);
    var found := Find(Some(t), hash, key);
    if found.Some? {
      InOrder(t, hash, i, found.value);
    } else if key in Contents(t.order) {
      var h :| h in t.order && h.key == key;
      InItsChain(t, hash, h);
      assert false;
    }
  }

  // ----- HASH_ADD -----

  /** Redistribution keeps every element, once, and places it by the wider mask. */
  lemma {:induction false} RelinkAllPlaces<K, E>(log2: nat, ideal: nat, hs: seq<Handle<K, E>>)
    requires ideal > 0
    ensures multiset(Flatten(RelinkAll(log2, ideal, hs))) == multiset(hs)
    ensures forall i, h :: 0 <= i < Pow2(log2) && h in RelinkAll(log2, ideal, hs)[i].chain ==>
              ToBucket(h.hashv, Pow2(log2)) == i
  {
    hide Flatten, Pow2, And;
    if hs == [] {
      FlattenEmpty<K, E>(Pow2(log2));
    } else {
      var prefix, h := hs[..|hs| - 1], hs[|hs| - 1];
      RelinkAllPlaces(log2, ideal, prefix);
      var bs := RelinkAll(log2, ideal, prefix);
      ToBucketInRange(h.hashv, log2);
      var i := ToBucket(h.hashv, |bs|);
      FlattenPush(bs, i, Relink(bs, log2, ideal, h)[i], h);
      assert hs == prefix + [h];
    }
  }

  lemma LinkPlaces<K, E>(t: Table<K, E>, hash: K -> nat, h: Handle<K, E>)
    requires PowerOfTwo(t.buckets, t.log2) && Placed(t, hash) && h.hashv == hash(h.key)
    ensures Placed(Link(t, h), hash)
  {}

  lemma AppendKey<K, E>(s: seq<Handle<K, E>>, h: Handle<K, E>)
    requires DistinctKeys(s) && h.key !in Contents(s)
    ensures DistinctKeys(s + [h]) && Contents(s + [h]) == Contents(s)[h.key := h.elem]
  {
    hide Contents;
    InContents(s);
    ContentsSnoc(s, h);
    forall i | 0 <= i < |s| ensures s[i].key != h.key { assert s[i] in s; }
  }

  lemma ContentsSnoc<K, E>(s: seq<Handle<K, E>>, h: Handle<K, E>)
    ensures Contents(s + [h]) == Contents(s)[h.key := h.elem]
  {
    assert (s + [h])[..|s|] == s;
  }

  lemma EmptyIsConsistent<K, E>(hash: K -> nat)
    ensures var t := MakeTable<K, E>();
            && PowerOfTwo(t.buckets, t.log2) && ChainCounts(t.buckets) && TotalCount(t.buckets) == 0
            && Flatten(t.buckets) == [] && Placed(t, hash)
  {
    assert PowerOfTwo(MakeTable<K, E>().buckets, 5);
    FlattenEmpty<K, E>(32);
    CountUpdateAll<K, E>(32);
  }

  lemma LinkKeepsConsistent<K, E>(t: Table<K, E>, hash: K -> nat, h: Handle<K, E>)
    requires PowerOfTwo(t.buckets, t.log2) && (t == MakeTable() || Consistent(t, hash))
    requires h.hashv == hash(h.key) && h.key !in Contents(t.order)
    ensures Consistent(Link(t, h), hash)
    ensures Contents(Link(t, h).order) == Contents(t.order)[h.key := h.elem]
  {
    EmptyIsConsistent<K, E>(hash);
    hide Flatten, Contents, TotalCount, Placed, DistinctKeys, BucketOf;
    var i := BucketOf(t, h);
    var b := Link(t, h).buckets[i];
    FlattenPush(t.buckets, i, b, h);
    CountUpdate(t.buckets, i, b);
    LinkPlaces(t, hash, h);
    assert DistinctKeys(t.order) by { if t == MakeTable() { NoKeys(t.order); } }
    AppendKey(t.order, h);
    assert multiset(t.order + [h]) == multiset(t.order) + multiset{h};
  }

  lemma NoKeys<K, E>(s: seq<Handle<K, E>>)
    requires s == []
    ensures DistinctKeys(s)
  {}

  /** Every chain of the wider table holds elements of the old one, where the wider mask sends them. */
  lemma ExpandPlaces<K, E>(t: Table<K, E>, hash: K -> nat, r: Table<K, E>)
    requires Consistent(t, hash) && PowerOfTwo(r.buckets, r.log2) && r.log2 == t.log2 + 1
    requires multiset(Flatten(r.buckets)) == multiset(t.order)
    requires forall i, h :: 0 <= i < |r.buckets| && h in r.buckets[i].chain ==> BucketOf(r, h) == i
    ensures Placed(r, hash)
  {
    forall i, h | 0 <= i < |r.buckets| && h in r.buckets[i].chain
      ensures h.hashv == hash(h.key) && BucketOf(r, h) == i
    {
      InFlatten(r.buckets, h);
      assert h in multiset(Flatten(r.buckets));
      InItsChain(t, hash, h);
    }
  }

  /** What HASH_EXPAND_BUCKETS preserves: counters, elements, and placement by the new mask. */
  lemma ExpandShape<K, E>(t: Table<K, E>)
    requires PowerOfTwo(t.buckets, t.log2) && ChainCounts(t.buckets) && t.numItems > 0
    requires TotalCount(t.buckets) == t.numItems
    ensures var r := Expand(t);
            && ChainCounts(r.buckets) && TotalCount(r.buckets) == t.numItems
            && multiset(Flatten(r.buckets)) == multiset(Flatten(t.buckets))
            && forall i, h :: 0 <= i < |r.buckets| && h in r.buckets[i].chain ==> BucketOf(r, h) == i
  {
    var hs, ideal := Flatten(t.buckets), ShiftCeil(t.numItems, t.log2 + 1);
    IdealPositive(t.numItems, t.log2 + 1);
    FlattenCount(t.buckets);
    RelinkAllShape(t.log2 + 1, ideal, hs);
    RelinkAllPlaces(t.log2 + 1, ideal, hs);
    hide RelinkAll, Flatten, ShiftCeil, TotalCount, And, Excess, ShiftRight;
  }

  lemma ExpandKeepsConsistent<K, E>(t: Table<K, E>, hash: K -> nat)
    requires Consistent(t, hash)
    ensures Consistent(Expand(t), hash)
  {
    ExpandShape(t);
    ExpandPlaces(t, hash, Expand(t));
    hide Expand, Flatten, TotalCount, Placed, DistinctKeys, ChainCounts, BucketOf;
  }

  /** HASH_ADD of a new key extends the map, through any expansion it triggers. */
  lemma AddAgrees<K, E>(t: Option<Table<K, E>>, hash: K -> nat, h: Handle<K, E>)
    requires t.Some? ==> Consistent(t.value, hash)
    requires h.hashv == hash(h.key) && (t.Some? ==> h.key !in Contents(t.value.order))
    ensures Consistent(Add(t, h).value, hash)
    ensures Contents(Add(t, h).value.order) == (if t.Some? then Contents(t.value.order) else map[])[h.key := h.elem]
  {
    var t0 := if t.Some? then t.value else MakeTable();
    assert PowerOfTwo(MakeTable<K, E>().buckets, 5);
    LinkKeepsConsistent(t0, hash, h);
    hide Consistent, Contents, Link;
    if Triggers(t0, h) { ExpandKeepsConsistent(Link(t0, h), hash); }
  }

  // ----- HASH_DELETE -----

  lemma {:induction false} RemovedWasThere<T>(s: seq<T>, x: T, e: T)
    requires e in Remove(s, x)
    ensures e in s
  {
    if s[0] != x && e != s[0] { RemovedWasThere(s[1..], x, e); }
  }

  lemma {:induction false} RemoveKeepsDistinct<K, E>(s: seq<Handle<K, E>>, x: Handle<K, E>)
    requires DistinctKeys(s) && x in s
    ensures DistinctKeys(Remove(s, x))
    ensures forall h :: h in Remove(s, x) <==> h in s && h != x
  {
    assert s == [s[0]] + s[1..];
    if s[0] != x {
      RemoveKeepsDistinct(s[1..], x);
      var r := Remove(s[1..], x);
      forall j | 0 <= j < |r| ensures r[j].key != s[0].key {
        RemovedWasThere(s[1..], x, r[j]);
      }
    }
  }

  lemma DeletePlaces<K, E>(t: Table<K, E>, hash: K -> nat, h: Handle<K, E>)
    requires Consistent(t, hash) && |t.order| > 1 && h in t.buckets[BucketOf(t, h)].chain
    ensures Placed(Delete(t, h).value, hash)
  {
    hide Flatten, Contents, TotalCount, DistinctKeys, ChainCounts, Remove, And, Pow2;
    var b, r := BucketOf(t, h), Delete(t, h).value;
    forall i, x | 0 <= i < |r.buckets| && x in r.buckets[i].chain
      ensures x.hashv == hash(x.key) && BucketOf(r, x) == i
    {
      if i == b { RemovedWasThere(t.buckets[b].chain, h, x); }
      assert x in t.buckets[i].chain;
    }
  }

  /** Unlinking h from its chain takes h, once, out of the table's elements. */
  lemma FlattenPop<K, E>(bs: seq<Bucket<K, E>>, i: nat, b: Bucket<K, E>, h: Handle<K, E>)
    requires i < |bs| && h in bs[i].chain && b.chain == Remove(bs[i].chain, h)
    ensures multiset(Flatten(bs[i := b])) == multiset(Flatten(bs)) - multiset{h}
  {
    hide Flatten;
    FlattenUpdate(bs, i, b);
    RemoveOnce(bs[i].chain, h);
    var x, y, c := multiset(Flatten(bs[i := b])), multiset(Flatten(bs)), multiset(b.chain);
    assert multiset(bs[i].chain) == c + multiset{h};
    assert (x + multiset{h}) + c == y + c;
    CancelCommon(x + multiset{h}, y, c);
  }

  /** HASH_DELETE takes exactly its key out of the map; the last element takes the table. */
  lemma DeleteAgrees<K, E>(t: Table<K, E>, hash: K -> nat, h: Handle<K, E>)
    requires Consistent(t, hash) && h in t.order
    ensures h in t.buckets[BucketOf(t, h)].chain && t.numItems > 0
    ensures match Delete(t, h)
            case Some(r) => Consistent(r, hash) && Contents(r.order) == Contents(t.order) - {h.key}
            case None => Contents(t.order) == map[h.key := h.elem]
  {
    InItsChain(t, hash, h);
    if |t.order| == 1 {
      assert t.order == [h] && t.order[..0] == [];
    } else {
      hide Consistent, Contents, Remove;
      assert |t.order| > 1 by { NotEmpty(t, hash); }
      UnlinkKeepsConsistent(t, hash, h);
    }
  }

  lemma NotEmpty<K, E>(t: Table<K, E>, hash: K -> nat)
    requires Consistent(t, hash)
    ensures |t.order| > 0
  {}

  lemma UnlinkKeepsConsistent<K, E>(t: Table<K, E>, hash: K -> nat, h: Handle<K, E>)
    requires Consistent(t, hash) && h in t.order && |t.order| > 1 && h in t.buckets[BucketOf(t, h)].chain
    ensures Consistent(Delete(t, h).value, hash)
    ensures Contents(Delete(t, h).value.order) == Contents(t.order) - {h.key}
  {
    hide Flatten, Contents, TotalCount, Placed, DistinctKeys, BucketOf, Remove;
    var i := BucketOf(t, h);
    var b := t.buckets[i];
    var b' := Bucket(Remove(b.chain, h), b.count - 1, b.expandMult);
    RemoveOnce(b.chain, h);
    RemoveOnce(t.order, h);
    RemoveKeepsDistinct(t.order, h);
    DeletePlaces(t, hash, h);
    FlattenPop(t.buckets, i, b', h);
    CountUpdate(t.buckets, i, b');
    RemovedContents(t.order, h);
  }

  lemma RemovedContents<K, E>(s: seq<Handle<K, E>>, x: Handle<K, E>)
    requires DistinctKeys(s) && x in s
    ensures Contents(Remove(s, x)) == Contents(s) - {x.key}
  {
    hide Contents, Remove;
    RemoveKeepsDistinct(s, x);
    InContents(s);
    InContents(Remove(s, x));
    forall k | k in Contents(s) && k != x.key ensures k in Contents(Remove(s, x)) {
      var h :| h in s && h.key == k;
      assert h in Remove(s, x);
    }
    forall k | k in Contents(Remove(s, x))
      ensures k in Contents(s) && k != x.key && Contents(s)[k] == Contents(Remove(s, x))[k]
    {
      var h :| h in Remove(s, x) && h.key == k;
      assert h in s && h != x;
    }
  }

  // ----- runs -----

  datatype Op<K, E> = AddOp(key: K, elem: E) | DeleteOp(key: K)

  /** The map a run of operations builds. */
  function RunMap<K, E>(ops: seq<Op<K, E>>): map<K, E> {
    if ops == [] then map[]
    else match ops[|ops| - 1]
      case AddOp(k, e) => RunMap(ops[..|ops| - 1])[k := e]
      case DeleteOp(k) => RunMap(ops[..|ops| - 1]) - {k}
  }

  /** Callers add only keys that are absent and delete only elements that are present. */
  ghost predicate Legal<K, E>(ops: seq<Op<K, E>>) {
    ops != [] ==>
      var m := RunMap(ops[..|ops| - 1]);
      Legal(ops[..|ops| - 1]) && match ops[|ops| - 1]
        case AddOp(k, _) => k !in m
        case DeleteOp(k) => k in m
  }

  /** One operation on the table; a deletion looks its element up first. */
  ghost function Apply<K, E>(t: Option<Table<K, E>>, hash: K -> nat, op: Op<K, E>): Option<Table<K, E>>
    requires t.Some? ==> Consistent(t.value, hash)
  {
    match op
    case AddOp(k, e) => Add(t, Handle(k, hash(k), e))
    case DeleteOp(k) =>
      if Find(t, hash, k).None? then t
      else
        FindAgrees(t.value, hash, k);
        DeleteAgrees(t.value, hash, Find(t, hash, k).value);
        Delete(t.value, Find(t, hash, k).value)
  }

  /** Tables reachable by a run, with what every one of them satisfies. */
  ghost function RunTable<K, E>(ops: seq<Op<K, E>>, hash: K -> nat): (t: Option<Table<K, E>>)
    requires Legal(ops)
    ensures t.Some? ==> Consistent(t.value, hash) && GrowthInvariant(t.value)
    ensures RunMap(ops) == if t.Some? then Contents(t.value.order) else map[]
  {
    if ops == [] then None
    else
      var t := RunTable(ops[..|ops| - 1], hash);
      ApplyAgrees(t, hash, ops[|ops| - 1]);
      Apply(t, hash, ops[|ops| - 1])
  }

  lemma ApplyAgrees<K, E>(t: Option<Table<K, E>>, hash: K -> nat, op: Op<K, E>)
    requires t.Some? ==> Consistent(t.value, hash) && GrowthInvariant(t.value)
    requires var m := if t.Some? then Contents(t.value.order) else map[];
             match op case AddOp(k, _) => k !in m case DeleteOp(k) => k in m
    ensures var r := Apply(t, hash, op);
            && (r.Some? ==> Consistent(r.value, hash) && GrowthInvariant(r.value))
            && (if r.Some? then Contents(r.value.order) else map[])
               == var m := if t.Some? then Contents(t.value.order) else map[];
                  match op case AddOp(k, e) => m[k := e] case DeleteOp(k) => m - {k}
  {
    match op
    case AddOp(k, e) =>
      AddAgrees(t, hash, Handle(k, hash(k), e));
      AddGrows(t, Handle(k, hash(k), e));
    case DeleteOp(k) =>
      FindAgrees(t.value, hash, k);
      var h := Find(t, hash, k).value;
      DeleteAgrees(t.value, hash, h);
      DeleteKeepsGrowth(t.value, h);
  }

  lemma AddGrows<K, E>(t: Option<Table<K, E>>, h: Handle<K, E>)
    requires t.Some? ==> GrowthInvariant(t.value)
    ensures GrowthInvariant(Add(t, h).value)
  {
    CountUpdateAll<K, E>(32);
    assert PowerOfTwo(MakeTable<K, E>().buckets, 5);
    InsertKeepsGrowth(if t.Some? then t.value else MakeTable(), h);
  }

  /** After any legal run, with any hash function, lookups answer as the plain map does. */
  lemma LookupsAgree<K, E>(ops: seq<Op<K, E>>, hash: K -> nat, key: K)
    requires Legal(ops)
    ensures match Find(RunTable(ops, hash), hash, key)
            case Some(h) => key in RunMap(ops) && h.key == key && h.elem == RunMap(ops)[key]
            case None => key !in RunMap(ops)
  {
    var t := RunTable(ops, hash);
    if t.Some? { FindAgrees(t.value, hash, key); }
  }

  /** After any legal run, while expansion is not inhibited: chains stay within ten times their
      multiplier plus one, and the table is at most 19 times as full as it is wide. */
  lemma ChainsStayShort<K, E>(ops: seq<Op<K, E>>, hash: K -> nat)
    requires Legal(ops)
    ensures RunTable(ops, hash).Some? && !RunTable(ops, hash).value.noexpand ==>
            var t := RunTable(ops, hash).value;
            && (forall i :: 0 <= i < |t.buckets| ==> |t.buckets[i].chain| <= 10 * (t.buckets[i].expandMult + 1))
            && TotalWeight(t.buckets) <= 2 * |t.buckets|
            && t.numItems <= 19 * |t.buckets|
            && t.idealChainMaxlen <= 10
  {
    var t := RunTable(ops, hash);
    if t.Some? && !t.value.noexpand { LoadBound(t.value.buckets); }
  }

  /** Chains, counters and verdicts change only where they must: linking and deleting leave the size of
      the table, every multiplier and what the last expansion found alone; an expansion records the
      rounded-up load as the ideal length and counts the items beyond it. */
  lemma OnlyExpansionsJudge<K, E>(t: Table<K, E>, hash: K -> nat, h: Handle<K, E>)
    requires Consistent(t, hash)
    ensures SameJudgement(Link(t, h), t)
    ensures h in t.order && |t.order| > 1 ==>
              && h in t.buckets[BucketOf(t, h)].chain && Delete(t, h).Some? && SameJudgement(Delete(t, h).value, t)
    ensures var r := Expand(t);
            && t.numItems <= r.idealChainMaxlen * |r.buckets| < t.numItems + |r.buckets|
            && r.nonidealItems == Excess(r.buckets, r.idealChainMaxlen)
  {
    hide Flatten, RelinkAll, Excess, ShiftCeil, Contents, Placed, DistinctKeys, TotalCount, And;
    if h in t.order { InItsChain(t, hash, h); }
    ShiftCeilIsCeiling(t.numItems, t.log2 + 1);
  }

  ghost predicate SameJudgement<K, E>(r: Table<K, E>, t: Table<K, E>) {
    && r.log2 == t.log2 && |r.buckets| == |t.buckets|
    && r.idealChainMaxlen == t.idealChainMaxlen && r.nonidealItems == t.nonidealItems
    && r.ineffExpands == t.ineffExpands && r.noexpand == t.noexpand
    && forall i :: 0 <= i < |t.buckets| ==> r.buckets[i].expandMult == t.buckets[i].expandMult
  }

  // ----- the app-order list -----

  /** The elements a run leaves, in the order in which they were added. */
  function InOrderAdded<K(==), E>(ops: seq<Op<K, E>>, hash: K -> nat): seq<Handle<K, E>> {
    if ops == [] then []
    else
      var before := InOrderAdded(ops[..|ops| - 1], hash);
      match ops[|ops| - 1]
      case AddOp(k, e) => before + [Handle(k, hash(k), e)]
      case DeleteOp(k) => Without(before, k)
  }

  function Without<K(==), E>(s: seq<Handle<K, E>>, k: K): seq<Handle<K, E>> {
    if s == [] then []
    else Without(s[..|s| - 1], k) + if s[|s| - 1].key == k then [] else [s[|s| - 1]]
  }

  /** Iteration visits the elements in the order in which they were added, whatever was deleted
      between and however often the table was expanded. */
  lemma {:induction false} IterationOrder<K, E>(ops: seq<Op<K, E>>, hash: K -> nat)
    requires Legal(ops)
    ensures InOrderAdded(ops, hash) == if RunTable(ops, hash).Some? then RunTable(ops, hash).value.order else []
  {
    if ops != [] {
      IterationOrder(ops[..|ops| - 1], hash);
      ApplyKeepsOrder(RunTable(ops[..|ops| - 1], hash), hash, ops[|ops| - 1]);
    }
  }

  lemma ApplyKeepsOrder<K, E>(t: Option<Table<K, E>>, hash: K -> nat, op: Op<K, E>)
    requires t.Some? ==> Consistent(t.value, hash)
    requires var m := if t.Some? then Contents(t.value.order) else map[];
             match op case AddOp(k, _) => k !in m case DeleteOp(k) => k in m
    ensures var before, r := if t.Some? then t.value.order else [], Apply(t, hash, op);
            (if r.Some? then r.value.order else [])
            == match op case AddOp(k, e) => before + [Handle(k, hash(k), e)] case DeleteOp(k) => Without(before, k)
  {
    hide Flatten, TotalCount, Placed, And, Excess, BucketOf, RelinkAll, ShiftCeil;
    match op
    case AddOp(k, e) =>
    case DeleteOp(k) =>
      FindAgrees(t.value, hash, k);
      var h := Find(t, hash, k).value;
      DeleteAgrees(t.value, hash, h);
      RemoveIsWithout(t.value.order, h);
      if |t.value.order| == 1 { assert t.value.order == [h]; }
  }

  lemma {:induction false} RemoveIsWithout<K, E>(s: seq<Handle<K, E>>, h: Handle<K, E>)
    requires DistinctKeys(s) && h in s
    ensures Remove(s, h) == Without(s, h.key)
  {
    if s[0] == h {
      WithoutCons(s, h.key);
      NothingWithout(s[1..], h.key);
    } else {
      assert s == [s[0]] + s[1..];
      WithoutCons(s, h.key);
      RemoveIsWithout(s[1..], h);
    }
  }

  lemma {:induction false} WithoutCons<K, E>(s: seq<Handle<K, E>>, k: K)
    requires s != []
    ensures Without(s, k) == (if s[0].key == k then [] else [s[0]]) + Without(s[1..], k)
  {
    if |s| > 1 {
      WithoutCons(s[..|s| - 1], k);
      assert s[..|s| - 1][1..] == s[1..][..|s| - 2];
    }
  }

  lemma {:induction false} NothingWithout<K, E>(s: seq<Handle<K, E>>, k: K)
    requires forall i :: 0 <= i < |s| ==> s[i].key != k
    ensures Without(s, k) == s
  {
    if s != [] { NothingWithout(s[..|s| - 1], k); }
  }

  /** An element that has just been added without an expansion is the first its lookup comes to. */
  lemma NewestFirst<K, E>(t: Table<K, E>, hash: K -> nat, h: Handle<K, E>)
    requires PowerOfTwo(t.buckets, t.log2) && h.hashv == hash(h.key) && !Triggers(t, h)
    ensures var r := Insert(t, h);
            ToBucket(h.hashv, |r.buckets|) < |r.buckets| && Find(Some(r), hash, h.key) == Some(h)
            && r.buckets[ToBucket(h.hashv, |r.buckets|)].chain[..1] == [h]
  {
    ToBucketInRange(h.hashv, t.log2);
  }

  // ----- inhibited expansion -----

  /** An expansion left more than half of the items beyond the ideal length of their chains. */
  predicate Ineffective<K, E>(t: Table<K, E>) {
    Excess(t.buckets, t.idealChainMaxlen) > t.numItems / 2
  }

  /** How many ineffective expansions in a row the current table has just had. */
  ghost function Streak<K, E>(ops: seq<Op<K, E>>, hash: K -> nat): nat
    requires Legal(ops)
  {
    if ops == [] || RunTable(ops, hash).None? || RunTable(ops[..|ops| - 1], hash).None? then 0
    else
      var t, now := RunTable(ops[..|ops| - 1], hash).value, RunTable(ops, hash).value;
      match ops[|ops| - 1]
      case AddOp(k, e) =>
        if !Triggers(t, Handle(k, hash(k), e)) then Streak(ops[..|ops| - 1], hash)
        else if Ineffective(now) then Streak(ops[..|ops| - 1], hash) + 1 else 0
      case DeleteOp(_) => Streak(ops[..|ops| - 1], hash)
  }

  lemma HalfByShift(n: nat)
    ensures ShiftRight(n, 1) == n / 2
  {
    ShiftIsDivision(n, 1);
    assert Pow2(1) == 2 * Pow2(0) == 2;
  }

  /** In every reachable table expansion is inhibited if and only if its last two expansions were
      both ineffective, and there has been no expansion since. */
  lemma {:induction false} InhibitedIff<K, E>(ops: seq<Op<K, E>>, hash: K -> nat)
    requires Legal(ops)
    ensures RunTable(ops, hash).Some? ==>
              && RunTable(ops, hash).value.ineffExpands == Streak(ops, hash) <= 2
              && (RunTable(ops, hash).value.noexpand <==> Streak(ops, hash) == 2)
  {
    if ops != [] {
      var prefix, op := ops[..|ops| - 1], ops[|ops| - 1];
      InhibitedIff(prefix, hash);
      ApplyCounts(RunTable(prefix, hash), hash, op);
    }
  }

  lemma ApplyCounts<K, E>(t: Option<Table<K, E>>, hash: K -> nat, op: Op<K, E>)
    requires t.Some? ==> Consistent(t.value, hash)
    ensures op.DeleteOp? && t.Some? && Apply(t, hash, op).Some? ==>
              && Apply(t, hash, op).value.ineffExpands == t.value.ineffExpands
              && Apply(t, hash, op).value.noexpand == t.value.noexpand
    ensures op.AddOp? && t.None? ==> !Apply(t, hash, op).value.noexpand && Apply(t, hash, op).value.ineffExpands == 0
    ensures op.AddOp? && t.Some? ==>
              var h, r := Handle(op.key, hash(op.key), op.elem), Apply(t, hash, op).value;
              if !Triggers(t.value, h) then r.ineffExpands == t.value.ineffExpands && r.noexpand == t.value.noexpand
              else r.ineffExpands == (if Ineffective(r) then t.value.ineffExpands + 1 else 0)
                   && (r.noexpand <==> t.value.noexpand || r.ineffExpands > 1)
  {
    hide Contents, Flatten, TotalCount, Placed, DistinctKeys, And, Excess;
    if op.AddOp? {
      HalfByShift(if t.Some? then t.value.numItems + 1 else 1);
      if t.None? { assert MakeTable<K, E>().buckets[0].expandMult == 0; }
    }
  }
}
