/** The pointers behind the hash table's sequences: the hh_prev/hh_next chain of a bucket and the
    prev/next app-order list, both running through the same handles. */
module HashLinks {
  import opened Sequences

  class Handle {
    const key: int
    const hashv: nat
    var hhPrev: Handle?
    var hhNext: Handle?
    var prev: Handle?
    var next: Handle?

    constructor (key: int, hashv: nat)
      ensures this.key == key && this.hashv == hashv
    {
      this.key, this.hashv := key, hashv;
      hhPrev, hhNext, prev, next := null, null, null, null;
    }
  }

  /** Element i, or null past either end. */
  function At(s: seq<Handle>, i: int): Handle? {
    if 0 <= i < |s| then s[i] else null
  }

  lemma WithoutAt(s: seq<Handle>, i: int, j: int)
    requires 0 <= i < |s|
    ensures At(Without(s, i), j) == if j < i then At(s, j) else At(s, j + 1)
  {}

  ghost predicate InChain(s: seq<Handle>, i: int)
    requires 0 <= i < |s|
    reads s
  {
    s[i].hhPrev == At(s, i - 1) && s[i].hhNext == At(s, i + 1)
  }

  /** UT_hash_bucket: its chain has null at both ends. */
  class Chain {
    var hhHead: Handle?
    var count: nat
    var expandMult: nat
    /** The handles, first to last. */
    ghost var items: seq<Handle>

    ghost predicate Valid()
      reads this, items
    {
      && Distinct(items) && hhHead == At(items, 0) && count == |items|
      && forall i {:trigger InChain(items, i)} :: 0 <= i < |items| ==> InChain(items, i)
    }

    constructor ()
      ensures Valid() && items == [] && expandMult == 0
    {
      hhHead, count, expandMult, items := null, 0, 0, [];
    }

    /** The linking in HASH_ADD_TO_BKT */
    method Add(h: Handle)
      requires Valid() && h !in items
      modifies this, items`hhPrev, h`hhPrev, h`hhNext
      ensures Valid() && items == [h] + old(items) && expandMult == old(expandMult)
    {
      ghost var s := [h] + items;
      count := count + 1;
      h.hhNext := hhHead;
      h.hhPrev := null;
      if hhHead != null {
        hhHead.hhPrev := h;
      }
      hhHead := h;
      items := s;
      forall j | 0 <= j < |items| ensures InChain(items, j) {
        if j > 0 { assert old(InChain(items, j - 1)); }
      }
    }

    /** HASH_DEL_IN_BKT of the handle at position i. */
    method Delete(h: Handle, ghost i: int)
      requires Valid() && 0 <= i < |items| && items[i] == h
      modifies this, items`hhPrev, items`hhNext
      ensures Valid() && items == Without(old(items), i) && expandMult == old(expandMult)
    {
      assert InChain(items, i);
      count := count - 1;
      if hhHead == h {
        hhHead := h.hhNext;
      }
      if h.hhPrev != null {
        h.hhPrev.hhNext := h.hhNext;
      }
      if h.hhNext != null {
        h.hhNext.hhPrev := h.hhPrev;
      }
      ghost var s := Without(items, i);
      forall j | 0 <= j < |s| ensures InChain(s, j) {
        WithoutAt(items, i, j - 1);
        WithoutAt(items, i, j + 1);
        assert old(InChain(items, if j < i then j else j + 1));
      }
      WithoutDistinct(items, i);
      WithoutAt(items, i, 0);
      items := s;
    }

    /** HASH_FIND_IN_BKT: the first handle with the key. */
    method Find(key: int) returns (out: Handle?)
      requires Valid()
      ensures out == null ==> forall i :: 0 <= i < |items| ==> items[i].key != key
      ensures out != null ==> exists i :: 0 <= i < |items| && items[i] == out && out.key == key
                                          && forall j :: 0 <= j < i ==> items[j].key != key
    {
      ghost var i := 0;
      out := hhHead;
      while out != null
        invariant 0 <= i <= |items| && out == At(items, i)
        invariant forall j :: 0 <= j < i ==> items[j].key != key
        decreases |items| - i
      {
        if out.key == key { return; }
        assert InChain(items, i);
        out := out.hhNext;
        i := i + 1;
      }
    }
  }

  ghost predicate InOrder(s: seq<Handle>, i: int)
    requires 0 <= i < |s|
    reads s
  {
    s[i].prev == At(s, i - 1) && s[i].next == At(s, i + 1)
  }

  /** The app-order list: the head pointer and the table's tail. */
  class AppOrder {
    var head: Handle?
    var tail: Handle?
    ghost var items: seq<Handle>

    /** The tail means nothing while the head is null: the table it is kept in is gone. */
    ghost predicate Valid()
      reads this, items
    {
      && Distinct(items) && head == At(items, 0) && (head != null ==> tail == At(items, |items| - 1))
      && forall i {:trigger InOrder(items, i)} :: 0 <= i < |items| ==> InOrder(items, i)
    }

    constructor ()
      ensures Valid() && items == []
    {
      head, tail, items := null, null, [];
    }

    /** The linking in HASH_ADD_KEYPTR */
    method Append(h: Handle)
      requires Valid() && h !in items
      modifies this, items`next, h`next, h`prev
      ensures Valid() && items == old(items) + [h]
    {
      ghost var s := items + [h];
      h.next := null;
      if head == null {
        head := h;
        h.prev := null;
        tail := h;
      } else {
        tail.next := h;
        h.prev := tail;
        tail := h;
      }
      items := s;
      forall j | 0 <= j < |items| ensures InOrder(items, j) {
        if j < |s| - 1 { assert old(InOrder(items, j)); }
      }
    }

    /** The patch-up in HASH_DELETE of the handle at position i. */
    method Delete(h: Handle, ghost i: int)
      requires Valid() && 0 <= i < |items| && items[i] == h
      modifies this, items`prev, items`next
      ensures Valid() && items == Without(old(items), i)
    {
      assert InOrder(items, i);
      ghost var s := Without(items, i);
      if h.prev == null && h.next == null {
        head := null;
      } else {
        if h == tail {
          tail := h.prev;
        }
        if h.prev != null {
          h.prev.next := h.next;
        } else {
          head := h.next;
        }
        if h.next != null {
          h.next.prev := h.prev;
        }
      }
      forall j | 0 <= j < |s| ensures InOrder(s, j) {
        WithoutAt(items, i, j - 1);
        WithoutAt(items, i, j + 1);
        assert old(InOrder(items, if j < i then j else j + 1));
      }
      WithoutDistinct(items, i);
      WithoutAt(items, i, 0);
      WithoutAt(items, i, |s| - 1);
      items := s;
    }
  }
}
