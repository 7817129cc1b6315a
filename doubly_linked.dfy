/** The doubly-linked list whose nodes are shared by two owners: an interior
    node is owned by its predecessor's `next` and its successor's `prev`; the
    first node by the `head` slot (and its successor's `prev`), the last by the
    `tail` slot (and its predecessor's `next`). The reference counts of the
    source are modelled by `Owners`, which counts the slots and links that
    point at a node. */
module DoublyLinked {
  import opened Wrappers

  class Node<T> {
    var val: T
    var next: Node?<T>
    var prev: Node?<T>

    /** `Node::new`: a node with no neighbours. */
    constructor (val: T)
      ensures this.val == val && next == null && prev == null
    {
      this.val := val;
      next, prev := null, null;
    }
  }

  /** What extracting the removed node's value gives: its value, or a panic of
      `Rc::try_unwrap(..).ok().unwrap()` because some owner other than the
      popping code still refers to the node. */
  datatype Extraction<T> = Returned(value: Option<T>) | UnwrapPanic

  ghost function NodeSet<T>(ns: seq<Node<T>>): set<object>
  {
    set n: Node<T> | n in ns
  }

  /** The link `n` holds towards its successor (`forward`) or predecessor. */
  ghost function Link<T>(n: Node<T>, forward: bool): Node?<T>
    reads n
  {
    if forward then n.next else n.prev
  }

  /** How many of the nodes of `ns` link to `x` in the given direction. */
  ghost function LinkCount<T>(ns: seq<Node<T>>, x: Node<T>, forward: bool): nat
    reads NodeSet(ns)
  {
    if ns == [] then 0
    else (if Link(ns[0], forward) == x then 1 else 0) + LinkCount(ns[1..], x, forward)
  }

  /** No link in the given direction points at `x` exactly when none is counted. */
  lemma {:induction false} LinkCountNone<T>(ns: seq<Node<T>>, x: Node<T>, forward: bool)
    ensures LinkCount(ns, x, forward) == 0 <==> forall i :: 0 <= i < |ns| ==> Link(ns[i], forward) != x
  {
    if ns != [] {
      assert forall i :: 0 <= i < |ns| - 1 ==> ns[1..][i] == ns[i + 1];
      LinkCountNone(ns[1..], x, forward);
      if Link(ns[0], forward) != x && LinkCount(ns[1..], x, forward) != 0 {
        var i :| 0 <= i < |ns| - 1 && Link(ns[1..][i], forward) == x;
        assert Link(ns[i + 1], forward) == x;
      }
    }
  }

  lemma {:induction false} LinkCountOne<T>(ns: seq<Node<T>>, x: Node<T>, forward: bool, k: nat)
    requires k < |ns| && Link(ns[k], forward) == x
    requires forall i :: 0 <= i < |ns| && i != k ==> Link(ns[i], forward) != x
    ensures LinkCount(ns, x, forward) == 1
  {
    assert forall i :: 0 <= i < |ns| - 1 ==> ns[1..][i] == ns[i + 1];
    if k == 0 {
      LinkCountNone(ns[1..], x, forward);
    } else {
      LinkCountOne(ns[1..], x, forward, k - 1);
    }
  }

  class DoublyLinkedList<T> {
    var head: Node?<T>
    var tail: Node?<T>
    ghost var contents: seq<T>          // front first
    ghost var nodes: seq<Node<T>>       // the nodes, in the order of `contents`
    ghost var Repr: set<object>

    /** The link structure: `nodes` runs from `head` to `tail`, each `next` is
        matched by the successor's `prev`, the ends point outwards at nothing,
        and no node occurs twice. */
    ghost predicate Valid()
      reads this, Repr
      ensures Valid() ==> this in Repr
    {
      this in Repr &&
      Repr == {this} + NodeSet(nodes) &&
      |nodes| == |contents| &&
      head == (if nodes == [] then null else nodes[0]) &&
      tail == (if nodes == [] then null else nodes[|nodes| - 1]) &&
      (forall i :: 0 <= i < |nodes| ==> nodes[i].val == contents[i]) &&
      (forall i :: 0 <= i < |nodes| - 1 ==> nodes[i].next == nodes[i + 1] && nodes[i + 1].prev == nodes[i]) &&
      (nodes != [] ==> nodes[0].prev == null && nodes[|nodes| - 1].next == null) &&
      (forall i, j :: 0 <= i < j < |nodes| ==> nodes[i] != nodes[j])
    }

    /** The owning references to `x` that the list holds: the two slots and
        every `next` and `prev` link of its nodes. */
    ghost function Owners(x: Node<T>): nat
      reads this, NodeSet(nodes)
    {
      (if head == x then 1 else 0) + (if tail == x then 1 else 0) +
      LinkCount(nodes, x, true) + LinkCount(nodes, x, false)
    }

    /** Nothing the list holds refers to `x`: neither slot, nor any node's
        `next` or `prev`. This is what lets `Rc::try_unwrap` succeed on a
        node that has been popped. */
    ghost predicate Unreferenced(x: Node<T>)
      reads this, NodeSet(nodes)
    {
      head != x && tail != x &&
      forall i :: 0 <= i < |nodes| ==> nodes[i].next != x && nodes[i].prev != x
    }

    /** Being unreferenced is having no owner in the list. */
    lemma UnreferencedIffNoOwners(x: Node<T>)
      ensures Unreferenced(x) <==> Owners(x) == 0
    {
      LinkCountNone(nodes, x, true);
      LinkCountNone(nodes, x, false);
    }

    /** `DoublyLinkedList::new`: the empty list. */
    constructor ()
      ensures Valid() && fresh(Repr)
      ensures contents == [] && head == null && tail == null
    {
      head, tail := null, null;
      contents, nodes := [], [];
      Repr := {this};
    }

    /** The dual-ownership invariant: every node of a valid list has exactly
        two owners. */
    lemma NodeHasTwoOwners(k: nat)
      requires Valid() && k < |nodes|
      ensures Owners(nodes[k]) == 2
    {
      var x, n := nodes[k], |nodes|;
      forall i | 0 <= i < n
        ensures Link(nodes[i], true) == x <==> i == k - 1
        ensures Link(nodes[i], false) == x <==> i == k + 1
      {
        if i < n - 1 {
          assert nodes[i].next == nodes[i + 1];
        }
        if i > 0 {
          assert nodes[i].prev == nodes[i - 1];
        }
      }
      if k == 0 {
        LinkCountNone(nodes, x, true);
      } else {
        LinkCountOne(nodes, x, true, k - 1);
      }
      if k == n - 1 {
        LinkCountNone(nodes, x, false);
      } else {
        LinkCountOne(nodes, x, false, k + 1);
      }
    }

    /** A node outside the list has no owner in it: every slot and link of a
        valid list is empty or points at one of its nodes. */
    lemma OutsiderHasNoOwners(x: Node<T>)
      requires Valid() && x !in nodes
      ensures Owners(x) == 0
    {
      forall i | 0 <= i < |nodes|
        ensures Link(nodes[i], true) != x && Link(nodes[i], false) != x
      {
        if i < |nodes| - 1 {
          assert nodes[i].next == nodes[i + 1];
        }
        if i > 0 {
          assert nodes[i].prev == nodes[i - 1];
        }
      }
      LinkCountNone(nodes, x, true);
      LinkCountNone(nodes, x, false);
    }

    /** Forward and backward links agree: `a.next == b` exactly when `b.prev == a`. */
    lemma LinksAgree(i: nat, j: nat)
      requires Valid() && i < |nodes| && j < |nodes|
      ensures nodes[i].next == nodes[j] <==> nodes[j].prev == nodes[i]
    {
      if nodes[i].next == nodes[j] {
        assert i < |nodes| - 1 && nodes[i + 1] == nodes[j];
      }
      if nodes[j].prev == nodes[i] {
        assert j > 0 && nodes[j - 1] == nodes[i];
      }
    }

    /** The ends: both slots are empty together, `head.prev` and `tail.next`
        are empty, and the slots share a node exactly when there is one element. */
    lemma EndsShape()
      requires Valid()
      ensures (head == null) == (tail == null) == (contents == [])
      ensures head != null ==> head.prev == null && tail.next == null
      ensures (head != null && head == tail) <==> |contents| == 1
    {
    }

    /** `push_front`. */
    method PushFront(val: T)
      requires Valid()
      modifies Repr
      ensures Valid() && fresh(Repr - old(Repr))
      ensures contents == [val] + old(contents)
      ensures fresh(head) && head.val == val && head.prev == null
      ensures old(head) == null ==> tail == head && head.next == null
      ensures old(head) != null ==> head.next == old(head) && old(head).prev == head && tail == old(tail)
    {
      var newHead := new Node(val);
      var oldHead := head;
      head := null;
      if oldHead != null {
        oldHead.prev := newHead;
        newHead.next := oldHead;
        head := newHead;
      } else {
        tail := newHead;
        head := newHead;
      }
      nodes, contents := [newHead] + nodes, [val] + contents;
      Repr := Repr + {newHead};
      assert forall i :: 1 <= i < |nodes| ==> nodes[i] == old(nodes)[i - 1];
    }

    /** `push_back`: the mirror image of `push_front`. */
    method PushBack(val: T)
      requires Valid()
      modifies Repr
      ensures Valid() && fresh(Repr - old(Repr))
      ensures contents == old(contents) + [val]
      ensures fresh(tail) && tail.val == val && tail.next == null
      ensures old(tail) == null ==> head == tail && tail.prev == null
      ensures old(tail) != null ==> tail.prev == old(tail) && old(tail).next == tail && head == old(head)
    {
      var newTail := new Node(val);
      var oldTail := tail;
      tail := null;
      if oldTail != null {
        oldTail.next := newTail;
        newTail.prev := oldTail;
        tail := newTail;
      } else {
        head := newTail;
        tail := newTail;
      }
      nodes, contents := nodes + [newTail], contents + [val];
      Repr := Repr + {newTail};
    }

    /** `pop_front`: unlinks the first node from both of its owners, so that
        the `Rc::try_unwrap(..).ok().unwrap()` check finds it unshared, and returns its value. */
    method PopFront() returns (r: Option<T>)
      requires Valid()
      modifies Repr
      ensures Valid() && Repr <= old(Repr)
      ensures old(contents) == [] ==> r == None && unchanged(this)
      ensures old(contents) != [] ==> r == Some(old(contents)[0]) && contents == old(contents)[1..]
      ensures old(contents) != [] ==> nodes == old(nodes)[1..] && Repr == old(Repr) - {old(nodes)[0]}
      ensures old(contents) != [] ==>
        Unreferenced(old(nodes)[0]) && old(nodes)[0].next == null && old(nodes)[0].prev == null
      ensures |old(contents)| == 1 ==> head == null && tail == null
    {
      var oldHead := head;
      head := null;
      if oldHead == null {
        r := None;
        return;
      }
      var newHead := oldHead.next;
      assert newHead == if |nodes| > 1 then nodes[1] else null;
      oldHead.next := null;
      if newHead != null {
        newHead.prev := null;
        head := newHead;
      } else {
        tail := null;
      }
      nodes, contents := nodes[1..], contents[1..];
      Repr := Repr - {oldHead};
      assert forall i :: 0 <= i < |nodes| ==> nodes[i] == old(nodes)[i + 1];
      OutsiderHasNoOwners(oldHead);
      UnreferencedIffNoOwners(oldHead);  // Rc::try_unwrap(old_head) succeeds
      r := Some(oldHead.val);
    }

    /** `pop_back` as it is intended: the mirror image of `pop_front`, which on
        a one-element list clears the head slot as well as the tail slot. */
    method PopBack() returns (r: Option<T>)
      requires Valid()
      modifies Repr
      ensures Valid() && Repr <= old(Repr)
      ensures old(contents) == [] ==> r == None && unchanged(this)
      ensures old(contents) != [] ==>
        r == Some(old(contents)[|old(contents)| - 1]) && contents == old(contents)[..|old(contents)| - 1]
      ensures old(contents) != [] ==> nodes == old(nodes)[..|old(nodes)| - 1]
      ensures old(contents) != [] ==>
        var last := old(nodes)[|old(nodes)| - 1];
        Unreferenced(last) && last.next == null && last.prev == null
      ensures |old(contents)| == 1 ==> head == null && tail == null
    {
      var oldTail := tail;
      tail := null;
      if oldTail == null {
        r := None;
        return;
      }
      var newTail := oldTail.prev;
      assert newTail == if |nodes| > 1 then nodes[|nodes| - 2] else null;
      oldTail.prev := null;
      if newTail != null {
        newTail.next := null;
        tail := newTail;
      } else {
        head := null;
      }
      nodes, contents := nodes[..|nodes| - 1], contents[..|contents| - 1];
      Repr := Repr - {oldTail};
      OutsiderHasNoOwners(oldTail);
      UnreferencedIffNoOwners(oldTail);  // Rc::try_unwrap(old_tail) succeeds
      r := Some(oldTail.val);
    }

    /** `pop_back` as written: on a one-element list the `None` branch clears
        the tail slot a second time and leaves the head slot on the removed
        node, so `Rc::try_unwrap` finds a second owner and the unwrap panics.
        The panic is decided by the references the list may still hold to the
        node, which are exactly what `Owners` counts. */
    method PopBackAsWritten() returns (o: Extraction<T>)
      requires Valid()
      modifies Repr
      ensures Repr <= old(Repr)
      ensures old(contents) == [] ==> o == Returned(None) && unchanged(this)
      ensures old(contents) != [] ==> (o == UnwrapPanic <==> !Unreferenced(old(nodes)[|old(nodes)| - 1]))
      ensures old(contents) != [] ==>
        nodes == old(nodes)[..|old(nodes)| - 1] && contents == old(contents)[..|old(contents)| - 1]
      ensures old(contents) != [] ==>
        var last := old(nodes)[|old(nodes)| - 1];
        last.next == null && last.prev == null
      ensures |old(contents)| >= 2 ==>
        o == Returned(Some(old(contents)[|old(contents)| - 1])) &&
        Valid() && contents == old(contents)[..|old(contents)| - 1]
      ensures |old(contents)| == 1 ==>
        o == UnwrapPanic && tail == null && head == old(head) && Owners(old(head)) == 1
    {
      var oldTail := tail;
      tail := null;
      if oldTail == null {
        o := Returned(None);
        return;
      }
      var newTail := oldTail.prev;
      assert newTail == if |nodes| > 1 then nodes[|nodes| - 2] else null;
      oldTail.prev := null;
      if newTail != null {
        newTail.next := null;
        tail := newTail;
      } else {
        tail := null;
      }
      nodes, contents := nodes[..|nodes| - 1], contents[..|contents| - 1];
      Repr := Repr - {oldTail};
      if nodes != [] {
        OutsiderHasNoOwners(oldTail);
      }
      UnreferencedIffNoOwners(oldTail);
      if head == oldTail || tail == oldTail {
        o := UnwrapPanic;
      } else {
        o := Returned(Some(oldTail.val));
      }
    }

    /** `Drop`: pops from the front until a pop finds the list empty. */
    method Drop()
      requires Valid()
      modifies Repr
      ensures Valid() && contents == [] && head == null && tail == null
    {
      var r := PopFront();
      while r.Some?
        invariant Valid() && Repr <= old(Repr)
        invariant r.None? ==> contents == []
        decreases |contents| + (if r.Some? then 1 else 0)
      {
        r := PopFront();
      }
      EndsShape();
    }
  }

  /** The consuming iterator `IntoIter`: it owns the list and drives it from
      either end. */
  class IntoIter<T> {
    var list: DoublyLinkedList<T>
    ghost var Repr: set<object>

    ghost predicate Valid()
      reads this, Repr
    {
      this in Repr && list in Repr && list.Repr <= Repr && this !in list.Repr && list.Valid()
    }

    /** `into_iter`: takes ownership of the list. */
    constructor (list: DoublyLinkedList<T>)
      requires list.Valid()
      ensures Valid() && this.list == list && Repr == {this} + list.Repr
    {
      this.list := list;
      Repr := {this} + list.Repr;
    }

    /** `IntoIter::next` is `pop_front`. */
    method Next() returns (r: Option<T>)
      requires Valid()
      modifies Repr
      ensures Valid() && list == old(list) && Repr <= old(Repr)
      ensures old(list.contents) == [] ==> r == None && list.contents == []
      ensures old(list.contents) != [] ==> r == Some(old(list.contents)[0]) && list.contents == old(list.contents)[1..]
    {
      r := list.PopFront();
      Repr := {this} + list.Repr;
    }

    /** `IntoIter::next_back` is `pop_back`. */
    method NextBack() returns (r: Option<T>)
      requires Valid()
      modifies Repr
      ensures Valid() && list == old(list) && Repr <= old(Repr)
      ensures old(list.contents) == [] ==> r == None && list.contents == []
      ensures old(list.contents) != [] ==>
        r == Some(old(list.contents)[|old(list.contents)| - 1]) &&
        list.contents == old(list.contents)[..|old(list.contents)| - 1]
    {
      r := list.PopBack();
      Repr := {this} + list.Repr;
    }
  }

  /** The `basics` test: front pushes and pops interleaved. */
  method Basics() returns (vs: seq<Option<int>>)
    ensures vs == [None, Some(3), Some(2), Some(5), Some(4), Some(1), None]
  {
    var dll := new DoublyLinkedList<int>();
    var a := dll.PopFront();
    dll.PushFront(1);
    dll.PushFront(2);
    dll.PushFront(3);
    assert dll.contents == [3, 2, 1];
    var b := dll.PopFront();
    var c := dll.PopFront();
    assert dll.contents == [1];
    dll.PushFront(4);
    dll.PushFront(5);
    assert dll.contents == [5, 4, 1];
    var d := dll.PopFront();
    var e := dll.PopFront();
    assert dll.contents == [1];
    var f := dll.PopFront();
    var g := dll.PopFront();
    vs := [a, b, c, d, e, f, g];
  }

  /** Pushing 1, 2, 3 at the front and popping from the back with the
      corrected `pop_back` yields them in insertion order. */
  method FifoViaBackRemoval() returns (vs: seq<Option<int>>)
    ensures vs == [Some(1), Some(2), Some(3), None]
  {
    var dll := new DoublyLinkedList<int>();
    dll.PushFront(1);
    dll.PushFront(2);
    dll.PushFront(3);
    var a := dll.PopBack();
    var b := dll.PopBack();
    var c := dll.PopBack();
    var d := dll.PopBack();
    vs := [a, b, c, d];
  }

  /** The consuming iterator served from both ends meets in the middle. */
  method IntoIterBothEnds() returns (vs: seq<Option<int>>)
    ensures vs == [Some(1), Some(3), Some(2), None, None]
  {
    var dll := new DoublyLinkedList<int>();
    dll.PushBack(1);
    dll.PushBack(2);
    dll.PushBack(3);
    var it := new IntoIter(dll);
    var a := it.Next();
    var b := it.NextBack();
    var c := it.Next();
    var d := it.NextBack();
    var e := it.Next();
    vs := [a, b, c, d, e];
  }

  /** The same with `pop_back` as written: the first two pops return 1 and 2,
      and the third, on the one remaining element, panics at the unwrap. */
  method FifoViaBackRemovalAsWritten() returns (os: seq<Extraction<int>>)
    ensures os == [Returned(Some(1)), Returned(Some(2)), UnwrapPanic]
  {
    var dll := new DoublyLinkedList<int>();
    dll.PushFront(1);
    dll.PushFront(2);
    dll.PushFront(3);
    var a := dll.PopBackAsWritten();
    var b := dll.PopBackAsWritten();
    var c := dll.PopBackAsWritten();
    os := [a, b, c];
  }

  /** One push, then `pop_back` as written: the unwrap panics because the head
      slot still owns the node. */
  method SingleElementPopBackAsWritten() returns (o: Extraction<int>)
    ensures o == UnwrapPanic
  {
    var dll := new DoublyLinkedList<int>();
    dll.PushFront(7);
    o := dll.PopBackAsWritten();
  }

  /** One push, then the corrected `pop_back`: the value comes back and a
      following `pop_front` finds the list empty. */
  method SingleElementPopBack() returns (popped: Option<int>, after: Option<int>)
    ensures popped == Some(7) && after == None
  {
    var dll := new DoublyLinkedList<int>();
    dll.PushFront(7);
    popped := dll.PopBack();
    after := dll.PopFront();
  }
}
