/** The redistribution loop of HASH_EXPAND_BUCKETS on the pointers: it relinks every handle from the
    old chains to the new ones, and refines RelinkAll. */
module HashRelink {
  import opened Bits
  import opened HashLinks
  import opened Sequences
  import HashTables
  import U = UtHash

  /** The value a handle stands for. */
  function Value(h: Handle): U.Handle<int, Handle> { U.Handle(h.key, h.hashv, h) }

  function Values(s: seq<Handle>): (v: seq<U.Handle<int, Handle>>)
    ensures |v| == |s|
  {
    seq(|s|, i requires 0 <= i < |s| => Value(s[i]))
  }

  /** The new chains are those of the specification's buckets. */
  ghost predicate Shows(cs: seq<Chain>, bs: seq<U.Bucket<int, Handle>>)
    reads cs
  {
    && |cs| == |bs|
    && forall i :: 0 <= i < |cs| ==> bs[i] == U.Bucket(Values(cs[i].items), cs[i].count, cs[i].expandMult)
  }

  /** Different chains that share no handle. */
  ghost predicate Apart(cs: seq<Chain>)
    reads cs
  {
    forall i, j :: 0 <= i < j < |cs| ==> cs[i] != cs[j] && forall h :: h in cs[i].items ==> h !in cs[j].items
  }

  /** The chains being built, out of the table's handles. */
  ghost predicate Good(cs: seq<Chain>, handles: set<Handle>)
    reads cs, handles
  {
    && Apart(cs)
    && (forall i, h :: 0 <= i < |cs| && h in cs[i].items ==> h in handles)
    && forall i :: 0 <= i < |cs| ==> cs[i].Valid()
  }

  /** One chain's step: ++count, expand_mult, and the handle to its head. */
  method Push(chain: Chain, ideal: nat, nonideal: nat, h: Handle) returns (n: nat)
    requires chain.Valid() && ideal > 0 && h !in chain.items
    modifies chain, chain.items`hhPrev, h`hhPrev, h`hhNext
    ensures chain.Valid() && chain.items == [h] + old(chain.items)
    ensures chain.expandMult == if chain.count > ideal then chain.count / ideal else old(chain.expandMult)
    ensures n == nonideal + if chain.count > ideal then 1 else 0
  {
    chain.Add(h);
    n := nonideal;
    if chain.count > ideal {
      n := n + 1;
      chain.expandMult := chain.count / ideal;
    }
  }

  lemma ValuesCons(h: Handle, s: seq<Handle>)
    ensures Values([h] + s) == [Value(h)] + Values(s)
  {}

  lemma ValuesConcat(s: seq<Handle>, t: seq<Handle>)
    ensures Values(s + t) == Values(s) + Values(t)
  {}

  /** One handle's move to its new chain. */
  method RelinkOne(news: seq<Chain>, ghost handles: set<Handle>, ghost bs: seq<U.Bucket<int, Handle>>, ghost log2: nat,
                   ideal: nat, nonideal: nat, h: Handle)
    returns (n: nat)
    requires U.PowerOfTwo(bs, log2) && ideal > 0 && nonideal == U.Excess(bs, ideal)
    requires Good(news, handles) && Shows(news, bs) && h in handles && forall i :: 0 <= i < |news| ==> h !in news[i].items
    modifies news, handles
    ensures forall x :: x in handles && x != h ==> x.hhNext == old(x.hhNext)
    ensures forall x :: x in handles && x != h && (forall i :: 0 <= i < |news| ==> x !in old(news[i].items)) ==>
              x.hhPrev == old(x.hhPrev)
    ensures Good(news, handles) && Shows(news, U.Relink(bs, log2, ideal, Value(h)))
    ensures n == U.Excess(U.Relink(bs, log2, ideal, Value(h)), ideal)
    ensures forall i, x :: 0 <= i < |news| && x in news[i].items ==> x == h || x in old(news[i].items)
  {
    hide U.Excess;
    U.ToBucketInRange(h.hashv, log2);
    var bkt := U.ToBucket(h.hashv, |news|);
    ghost var was := news[bkt].items;
    n := Push(news[bkt], ideal, nonideal, h);
    forall i | 0 <= i < |news| && i != bkt ensures news[i].Valid() {
      assert old(news[i].Valid());
      forall j | 0 <= j < |news[i].items| ensures InChain(news[i].items, j) {
        assert old(InChain(news[i].items, j)) && news[i].items[j] in news[i].items;
      }
    }
    ValuesCons(h, was);
    HashTables.ExcessUpdate(bs, bkt, U.Relink(bs, log2, ideal, Value(h))[bkt], ideal);
  }

  /** The new chains hold just the handles moved so far, as the specification has them. */
  ghost predicate Building(news: seq<Chain>, handles: set<Handle>, log2: nat, ideal: nat, nonideal: nat, moved: seq<Handle>)
    requires ideal > 0
    reads news, handles
  {
    && Good(news, handles) && Shows(news, U.RelinkAll(log2, ideal, Values(moved)))
    && nonideal == U.Excess(U.RelinkAll(log2, ideal, Values(moved)), ideal)
    && forall i, x :: 0 <= i < |news| && x in news[i].items ==> x in moved
  }

  method MoveOne(news: seq<Chain>, ghost handles: set<Handle>, ghost log2: nat, ideal: nat, nonideal: nat,
                 ghost moved: seq<Handle>, h: Handle)
    returns (n: nat)
    requires ideal > 0 && Building(news, handles, log2, ideal, nonideal, moved) && h in handles && h !in moved
    modifies news, handles
    ensures Building(news, handles, log2, ideal, n, moved + [h])
    ensures forall x :: x in handles && x != h ==> x.hhNext == old(x.hhNext)
    ensures forall x :: x in handles && x != h && x !in moved ==> x.hhPrev == old(x.hhPrev)
  {
    hide U.Excess, U.Relink, U.RelinkAll, Good, Shows, Values;
    RelinkSnoc(log2, ideal, moved, h);
    n := RelinkOne(news, handles, U.RelinkAll(log2, ideal, Values(moved)), log2, ideal, nonideal, h);
  }

  /** The rest of an old chain, from position k on. */
  ghost predicate Rest(s: seq<Handle>, k: nat, moved: seq<Handle>)
    reads s
  {
    k <= |s| && forall j :: k <= j < |s| ==> s[j] !in moved && s[j].hhNext == At(s, j + 1)
  }

  ghost predicate Within(s: seq<Handle>, handles: set<Handle>) {
    forall x :: x in s ==> x in handles
  }

  /** Handles that keep the links they had. */
  ghost predicate Kept(links: map<Handle, (Handle?, Handle?)>)
    reads links.Keys
  {
    forall x :: x in links ==> x.hhPrev == links[x].0 && x.hhNext == links[x].1
  }

  /** One pass of the inner loop: hh_next is read before the handle is relinked. */
  method MoveFirst(news: seq<Chain>, ghost handles: set<Handle>, ghost log2: nat, ideal: nat, nonideal: nat,
                   ghost s: seq<Handle>, ghost k: nat, ghost moved: seq<Handle>, h: Handle, ghost touched: set<Handle>,
                   ghost kept: map<Handle, (Handle?, Handle?)>)
    returns (n: nat, nxt: Handle?)
    requires ideal > 0 && Building(news, handles, log2, ideal, nonideal, moved)
    requires Distinct(s) && Rest(s, k, moved) && k < |s| && h == s[k] && Within(s, handles)
    requires Within(moved, touched) && Within(s, touched) && kept.Keys !! touched && kept.Keys <= handles && Kept(kept)
    modifies news, handles
    ensures Building(news, handles, log2, ideal, n, moved + [h])
    ensures Rest(s, k + 1, moved + [h]) && nxt == At(s, k + 1) && Within(moved + [h], touched) && Kept(kept)
  {
    hide Building;
    nxt := h.hhNext;
    n := MoveOne(news, handles, log2, ideal, nonideal, moved, h);
  }

  /** The inner loop over one old chain. */
  method RelinkChain(chain: Chain, news: seq<Chain>, ghost handles: set<Handle>, ghost log2: nat, ideal: nat, nonideal: nat,
                     ghost visited: seq<Handle>, ghost touched: set<Handle>, ghost kept: map<Handle, (Handle?, Handle?)>)
    returns (n: nat)
    requires chain.Valid() && chain !in news && ideal > 0 && Within(chain.items, handles)
    requires Within(visited, touched) && Within(chain.items, touched)
    requires kept.Keys !! touched && kept.Keys <= handles && Kept(kept)
    requires forall x :: x in chain.items ==> x !in visited
    requires Building(news, handles, log2, ideal, nonideal, visited)
    modifies news, handles
    ensures Building(news, handles, log2, ideal, n, visited + old(chain.items)) && Kept(kept)
  {
    ghost var s, k, moved: seq<Handle> := chain.items, 0, visited;
    NextLinks(chain, visited);
    hide Building, Rest, Within, Distinct, Kept, chain.Valid;
    n := nonideal;
    var thh := chain.hhHead;
    while thh != null
      invariant k <= |s| && thh == At(s, k) && moved == visited + s[..k]
      invariant Rest(s, k, moved) && Within(moved, touched) && Building(news, handles, log2, ideal, n, moved) && Kept(kept)
      decreases |s| - k
    {
      n, thh := MoveFirst(news, handles, log2, ideal, n, s, k, moved, thh, touched, kept);
      Extend(visited, s, k);
      moved := moved + [s[k]];
      k := k + 1;
    }
    assert s[..k] == s;
  }

  lemma Extend(visited: seq<Handle>, s: seq<Handle>, k: nat)
    requires k < |s|
    ensures visited + s[..k] + [s[k]] == visited + s[..k + 1]
  {}

  /** What a valid chain says about hh_next. */
  lemma NextLinks(c: Chain, visited: seq<Handle>)
    requires c.Valid() && forall x :: x in c.items ==> x !in visited
    ensures c.hhHead == At(c.items, 0) && Distinct(c.items) && Rest(c.items, 0, visited)
  {
    forall j | 0 <= j < |c.items| ensures c.items[j].hhNext == At(c.items, j + 1) {
      assert InChain(c.items, j);
    }
  }

  /** The handles of the old buckets in the order the loops visit them. */
  function Visit(lists: seq<seq<Handle>>): seq<Handle> {
    if lists == [] then [] else Visit(lists[..|lists| - 1]) + lists[|lists| - 1]
  }

  ghost predicate Chained(cs: seq<Chain>, lists: seq<seq<Handle>>)
    reads cs
  {
    |cs| == |lists| && forall i :: 0 <= i < |cs| ==> cs[i].items == lists[i]
  }

  lemma {:induction false} VisitShows(cs: seq<Chain>, bs: seq<U.Bucket<int, Handle>>, lists: seq<seq<Handle>>)
    requires Shows(cs, bs) && Chained(cs, lists)
    ensures Values(Visit(lists)) == U.Flatten(bs)
  {
    if cs != [] {
      var last := |cs| - 1;
      VisitShows(cs[..last], bs[..last], lists[..last]);
      ValuesConcat(Visit(lists[..last]), lists[last]);
    }
  }

  lemma {:induction false} NotVisited(lists: seq<seq<Handle>>, x: Handle)
    requires forall i :: 0 <= i < |lists| ==> x !in lists[i]
    ensures x !in Visit(lists)
  {
    if lists != [] { NotVisited(lists[..|lists| - 1], x); }
  }

  lemma VisitNext(cs: seq<Chain>, lists: seq<seq<Handle>>, i: nat)
    requires Chained(cs, lists) && Apart(cs) && i < |lists|
    ensures Visit(lists[..i + 1]) == Visit(lists[..i]) + lists[i]
    ensures forall j, x :: i <= j < |lists| && x in lists[j] ==> x !in Visit(lists[..i])
  {
    assert lists[..i + 1][..i] == lists[..i];
    forall j, x | i <= j < |lists| && x in lists[j] ensures x !in Visit(lists[..i]) {
      assert forall k :: 0 <= k < i ==> lists[k] == cs[k].items && x !in lists[k];
      NotVisited(lists[..i], x);
    }
  }

  /** Nothing moved yet. */
  lemma NothingMoved(news: seq<Chain>, handles: set<Handle>, log2: nat, ideal: nat)
    requires ideal > 0 && Good(news, handles) && Shows(news, U.EmptyBuckets(Pow2(log2)))
    ensures Building(news, handles, log2, ideal, 0, [])
  {
    HashTables.ExcessOfEmpty<int, Handle>(Pow2(log2), ideal);
    assert Values([]) == [];
    forall i | 0 <= i < |news| ensures news[i].items == [] {
      assert |Values(news[i].items)| == 0;
    }
  }

  /** HASH_EXPAND_BUCKETS's loops over all old buckets: the new chains are those of RelinkAll, and
      nonideal_items is counted on the way. */
  method Redistribute(olds: seq<Chain>, ghost oldBuckets: seq<U.Bucket<int, Handle>>, news: seq<Chain>,
                      ghost handles: set<Handle>, ghost log2: nat, ideal: nat)
    returns (nonideal: nat)
    requires Good(olds, handles) && Shows(olds, oldBuckets) && ideal > 0
    requires Good(news, handles) && Shows(news, U.EmptyBuckets(Pow2(log2))) && forall i :: 0 <= i < |olds| ==> olds[i] !in news
    modifies news, handles
    ensures Good(news, handles) && Shows(news, U.RelinkAll(log2, ideal, U.Flatten(oldBuckets)))
    ensures nonideal == U.Excess(U.RelinkAll(log2, ideal, U.Flatten(oldBuckets)), ideal)
  {
    hide U.Excess, U.RelinkAll, U.EmptyBuckets, U.Flatten, Pow2, Visit, Values, Good, Shows;
    ghost var lists := ListsOf(olds);
    VisitShows(olds, oldBuckets, lists);
    nonideal := 0;
    NothingMoved(news, handles, log2, ideal);
    VisitNone(lists[..0]);
    GoodParts(olds, handles);
    for i := 0 to |olds|
      modifies news, handles
      invariant Building(news, handles, log2, ideal, nonideal, Visit(lists[..i]))
      invariant Chained(olds, lists) && Apart(olds) && StillThere(olds, handles, i)
    {
      VisitNext(olds, lists, i);
      nonideal := RelinkNext(olds, i, news, handles, log2, ideal, nonideal, Visit(lists[..i]));
    }
    assert lists[..|olds|] == lists;
  }

  ghost function ListsOf(cs: seq<Chain>): (lists: seq<seq<Handle>>)
    reads cs
    ensures Chained(cs, lists)
  {
    if cs == [] then [] else ListsOf(cs[..|cs| - 1]) + [cs[|cs| - 1].items]
  }

  lemma RelinkSnoc(log2: nat, ideal: nat, visited: seq<Handle>, h: Handle)
    requires ideal > 0
    ensures U.PowerOfTwo(U.RelinkAll(log2, ideal, Values(visited)), log2)
    ensures U.RelinkAll(log2, ideal, Values(visited + [h]))
         == U.Relink(U.RelinkAll(log2, ideal, Values(visited)), log2, ideal, Value(h))
  {
    hide U.Relink;
    ValuesConcat(visited, [h]);
    assert Values([h]) == [Value(h)];
    HashTables.RelinkAllSnoc(log2, ideal, Values(visited), Value(h));
  }

  lemma VisitNone(lists: seq<seq<Handle>>)
    requires lists == []
    ensures Visit(lists) == []
  {}

  /** The old chains from the i-th on are as they were. */
  ghost predicate StillThere(olds: seq<Chain>, handles: set<Handle>, i: nat)
    reads olds, handles
  {
    && (forall j, x :: 0 <= j < |olds| && x in olds[j].items ==> x in handles)
    && forall j :: i <= j < |olds| ==> olds[j].Valid()
  }

  lemma GoodParts(cs: seq<Chain>, handles: set<Handle>)
    requires Good(cs, handles)
    ensures Apart(cs) && StillThere(cs, handles, 0)
  {}

  /** The body of the outer loop: the chains after this one stay whole. */
  method RelinkNext(olds: seq<Chain>, i: nat, news: seq<Chain>, ghost handles: set<Handle>, ghost log2: nat, ideal: nat,
                    nonideal: nat, ghost visited: seq<Handle>)
    returns (n: nat)
    requires i < |olds| && Apart(olds) && StillThere(olds, handles, i) && ideal > 0
    requires forall j :: 0 <= j < |olds| ==> olds[j] !in news
    requires forall j, x :: i <= j < |olds| && x in olds[j].items ==> x !in visited
    requires Building(news, handles, log2, ideal, nonideal, visited)
    modifies news, handles
    ensures forall j :: 0 <= j < |olds| ==> olds[j].items == old(olds[j].items)
    ensures Building(news, handles, log2, ideal, n, visited + olds[i].items)
    ensures StillThere(olds, handles, i + 1)
  {
    hide Building;
    ghost var touched := (set x | x in visited) + set x | x in olds[i].items;
    ghost var kept := map x | x in handles && x !in touched :: (x.hhPrev, x.hhNext);
    n := RelinkChain(olds[i], news, handles, log2, ideal, nonideal, visited, touched, kept);
    forall j | i < j < |olds| ensures olds[j].Valid() {
      var items := olds[j].items;
      assert old(olds[j].Valid());
      forall k | 0 <= k < |items| ensures InChain(items, k) {
        assert old(InChain(items, k)) && items[k] in items && items[k] in kept;
      }
    }
  }
}
