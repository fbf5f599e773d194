/** The doubly linked lists of utlist.h: the head's prev is the tail, the tail's next is null. */
module UtList {
  import opened Sequences

  class Element {
    var prev: Element?
    var next: Element?

    constructor ()
    {
      prev, next := null, null;
    }
  }

  /** What prev and next of element i point to: round to the tail, and null at the end. */
  function Before(s: seq<Element>, i: int): Element
    requires 0 <= i < |s|
  {
    if i == 0 then s[|s| - 1] else s[i - 1]
  }

  function Behind(s: seq<Element>, i: int): Element?
    requires 0 <= i < |s|
  {
    if i == |s| - 1 then null else s[i + 1]
  }

  ghost predicate LinkedAt(s: seq<Element>, i: int)
    requires 0 <= i < |s|
    reads s
  {
    s[i].prev == Before(s, i) && s[i].next == Behind(s, i)
  }

  class List {
    var head: Element?
    /** The elements, first to last. */
    ghost var elements: seq<Element>

    ghost predicate Valid()
      reads this, elements
    {
      && Distinct(elements)
      && head == (if elements == [] then null else elements[0])
      && forall i {:trigger LinkedAt(elements, i)} :: 0 <= i < |elements| ==> LinkedAt(elements, i)
    }

    constructor ()
      ensures Valid() && elements == []
    {
      head, elements := null, [];
    }

    /** DL_APPEND2 */
    method Append(add: Element)
      requires Valid() && add !in elements
      modifies this, elements, add
      ensures Valid() && elements == old(elements) + [add]
    {
      if head != null {
        assert LinkedAt(elements, 0) && LinkedAt(elements, |elements| - 1);
        add.prev := head.prev;
        head.prev.next := add;
        head.prev := add;
        add.next := null;
      } else {
        head := add;
        head.prev := head;
        head.next := null;
      }
      elements := elements + [add];
      forall j | 0 <= j < |elements| ensures LinkedAt(elements, j) {
        if j < |old(elements)| { assert old(LinkedAt(elements, j)); }
      }
    }

    /** DL_PREPEND2 */
    method Prepend(add: Element)
      requires Valid() && add !in elements
      modifies this, elements, add
      ensures Valid() && elements == [add] + old(elements)
    {
      add.next := head;
      if head != null {
        assert LinkedAt(elements, 0);
        add.prev := head.prev;
        head.prev := add;
      } else {
        add.prev := add;
      }
      head := add;
      elements := [add] + elements;
      forall j | 0 <= j < |elements| ensures LinkedAt(elements, j) {
        if j > 0 { assert old(LinkedAt(elements, j - 1)); }
      }
    }

    /** DL_DELETE2 of the element at position i: head, middle, tail or only element. Its own
        links are left as they were, which is what lets a loop delete and step on. */
    method Delete(del: Element, ghost i: int)
      requires Valid() && 0 <= i < |elements| && elements[i] == del
      modifies this, elements
      ensures Valid() && elements == Without(old(elements), i)
      ensures del.prev == old(del.prev) && del.next == old(del.next)
    {
      assert LinkedAt(elements, i) && LinkedAt(elements, 0);
      if del.prev == del {
        head := null;
      } else if del == head {
        del.next.prev := del.prev;
        head := del.next;
      } else {
        del.prev.next := del.next;
        if del.next != null {
          del.next.prev := del.prev;
        } else {
          head.prev := del.prev;
        }
      }
      WithoutDistinct(elements, i);
      elements := Without(elements, i);
      forall j | 0 <= j < |elements| ensures LinkedAt(elements, j) {
        assert old(LinkedAt(elements, if j < i then j else j + 1));
      }
    }

    /** DL_FOREACH: visits every element once, first to last. */
    method Foreach() returns (visited: seq<Element>)
      requires Valid()
      ensures visited == elements
    {
      visited := [];
      var el := head;
      while el != null
        invariant |visited| <= |elements| && visited == elements[..|visited|]
        invariant el == if |visited| < |elements| then elements[|visited|] else null
        decreases |elements| - |visited|
      {
        assert LinkedAt(elements, |visited|);
        visited := visited + [el];
        el := el.next;
      }
    }

    /** The DL_FOREACH_SAFE loop that deletes and frees every element. */
    method FreeAll() returns (freed: seq<Element>)
      requires Valid()
      modifies this, elements
      ensures Valid() && elements == [] && freed == old(elements)
    {
      freed := [];
      var el := head;
      while el != null
        invariant Valid() && el == head && |freed| <= |old(elements)|
        invariant freed == old(elements)[..|freed|] && elements == old(elements)[|freed|..]
        decreases |elements|
      {
        assert LinkedAt(elements, 0);
        var tmp := el.next;
        assert tmp == if |elements| > 1 then elements[1] else null;
        forall i | 0 <= i < |elements| ensures elements[i] in old(elements) {
          assert elements[i] == old(elements)[|freed| + i];
        }
        Delete(el, 0);
        freed := freed + [el];
        el := tmp;
      }
    }
  }
}
