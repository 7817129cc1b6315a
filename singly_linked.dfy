/** The exclusively-owned singly-linked list: a LIFO stack of heap nodes, each
    owned by exactly one reference (the list's `head` slot or its predecessor's
    `next` field). */
module SinglyLinked {
  import opened Wrappers

  class Node<T> {
    var val: T
    var next: Node?<T>

    constructor (val: T, next: Node?<T>)
      ensures this.val == val && this.next == next
    {
      this.val := val;
      this.next := next;
    }
  }

  /** `ns` is the chain of nodes that starts at `first`, carrying the values
      `vs`: each node's `next` is its successor, the last one's is null, and no
      node occurs twice. */
  ghost predicate Chain<T>(first: Node?<T>, ns: seq<Node<T>>, vs: seq<T>)
    reads set n | n in ns
  {
    |ns| == |vs| &&
    first == (if ns == [] then null else ns[0]) &&
    (forall i :: 0 <= i < |ns| ==> ns[i].val == vs[i]) &&
    (forall i :: 0 <= i < |ns| - 1 ==> ns[i].next == ns[i + 1]) &&
    (ns != [] ==> ns[|ns| - 1].next == null) &&
    (forall i, j :: 0 <= i < j < |ns| ==> ns[i] != ns[j])
  }

  /** The nodes of `ns`, as a footprint. */
  ghost function NodeSet<T>(ns: seq<Node<T>>): set<object>
  {
    set n: Node<T> | n in ns
  }

  /** Stepping over the first node of a chain leaves a chain. */
  lemma ChainRest<T>(first: Node?<T>, ns: seq<Node<T>>, vs: seq<T>)
    requires Chain(first, ns, vs) && ns != []
    ensures Chain(ns[0].next, ns[1..], vs[1..])
  {
  }

  /** Putting a node whose `next` is the chain's first node in front of the
      chain gives a chain. */
  lemma ChainCons<T>(n: Node<T>, first: Node?<T>, ns: seq<Node<T>>, vs: seq<T>)
    requires Chain(first, ns, vs) && n.next == first && n !in ns
    ensures Chain(n, [n] + ns, [n.val] + vs)
    ensures NodeSet([n] + ns) == {n} + NodeSet(ns)
  {
  }

  class LinkedList<T> {
    var head: Node?<T>
    ghost var contents: seq<T>          // front first
    ghost var nodes: seq<Node<T>>       // the nodes, in the order of `contents`
    ghost var Repr: set<object>

    ghost predicate Valid()
      reads this, Repr
      ensures Valid() ==> this in Repr
    {
      this in Repr &&
      Repr == {this} + NodeSet(nodes) &&
      Chain(head, nodes, contents)
    }

    /** `LinkedList::new`: the empty list. */
    constructor ()
      ensures Valid() && fresh(Repr)
      ensures contents == [] && head == null
    {
      head := null;
      contents, nodes := [], [];
      Repr := {this};
    }

    /** `push`: the new node takes ownership of the old head and becomes the head. */
    method Push(val: T)
      requires Valid()
      modifies this
      ensures Valid() && fresh(Repr - old(Repr))
      ensures contents == [val] + old(contents)
      ensures fresh(head) && head.next == old(head)
    {
      var n := new Node(val, head);
      ChainCons(n, head, nodes, contents);
      head := n;
      contents, nodes := [val] + contents, [n] + nodes;
      Repr := Repr + {n};
    }

    /** `pop`: detaches the head and returns its value, or None on an empty list. */
    method Pop() returns (r: Option<T>)
      requires Valid()
      modifies this
      ensures Valid() && Repr <= old(Repr)
      ensures old(contents) == [] ==> r == None && unchanged(this)
      ensures old(contents) != [] ==> r == Some(old(contents)[0]) && contents == old(contents)[1..]
    {
      var n := head;
      head := null;
      if n == null {
        r := None;
      } else {
        ChainRest(n, nodes, contents);
        head := n.next;
        r := Some(n.val);
        contents, nodes := contents[1..], nodes[1..];
        Repr := Repr - {n};
      }
    }

    /** `get`: walks `index` steps from the head (staying on None once past the
        end) and returns the value reached. */
    method Get(index: nat) returns (r: Option<T>)
      requires Valid()
      ensures r == if index < |contents| then Some(contents[index]) else None
    {
      var cur := head;
      for k := 0 to index
        invariant cur == if k < |nodes| then nodes[k] else null
      {
        if cur != null {
          cur := cur.next;
        }
      }
      r := if cur == null then None else Some(cur.val);
    }

    /** `get_mut`: the same walk as `get`, returning the node itself, through
        which the caller may write the value in place. */
    method GetMut(index: nat) returns (r: Option<Node<T>>)
      requires Valid()
      ensures r.Some? <==> index < |contents|
      ensures r.Some? ==> r.value == nodes[index] && r.value.val == contents[index]
    {
      var cur := head;
      for k := 0 to index
        invariant cur == if k < |nodes| then nodes[k] else null
      {
        if cur != null {
          cur := cur.next;
        }
      }
      r := if cur == null then None else Some(cur);
    }

    /** A caller's `if let Some(x) = ll.get_mut(index) { *x = val }`: the
        value is written in place through the node `get_mut` reaches. */
    method WriteAt(index: nat, val: T) returns (found: bool)
      requires Valid()
      modifies Repr
      ensures Valid() && Repr == old(Repr) && nodes == old(nodes)
      ensures found <==> index < |old(contents)|
      ensures contents == if found then old(contents)[index := val] else old(contents)
    {
      var r := GetMut(index);
      found := r.Some?;
      if found {
        r.value.val := val;
        contents := contents[index := val];
      }
    }

    /** `peek`: the front value, without removing it. */
    method Peek() returns (r: Option<T>)
      requires Valid()
      ensures r == if contents == [] then None else Some(contents[0])
    {
      r := if head == null then None else Some(head.val);
    }

    /** `iter`: a fresh borrowing iterator positioned at the head. */
    method Iter() returns (it: Iter<T>)
      requires Valid()
      ensures fresh(it) && it.Valid()
      ensures it.rest == contents && it.restNodes == nodes
    {
      it := new Iter(head, nodes, contents);
    }

    /** `iter_mut`: a fresh mutable iterator positioned at the head. */
    method IterMut() returns (it: IterMut<T>)
      requires Valid()
      ensures fresh(it) && it.Valid()
      ensures it.restNodes == nodes
    {
      it := new IterMut(head, nodes, contents);
    }

    /** One full `for` pass of `iter()`: it yields every value, front first,
        and leaves the list as it was. */
    method Values() returns (vs: seq<T>)
      requires Valid()
      ensures vs == contents
    {
      var it := Iter();
      vs := [];
      var x := it.Next();
      while x.Some?
        invariant it.Valid() && fresh(it)
        invariant x.Some? ==> vs + [x.value] + it.rest == contents
        invariant x.None? ==> vs == contents
        decreases |it.rest| + (if x.Some? then 1 else 0)
      {
        vs := vs + [x.value];
        x := it.Next();
      }
    }

    /** One full pass of `iter_mut()`: it hands out every node exactly once,
        front first. */
    method MutPositions() returns (ns: seq<Node<T>>)
      requires Valid()
      ensures ns == nodes
    {
      var it := IterMut();
      ns := [];
      var x := it.Next();
      while x.Some?
        invariant it.Valid() && fresh(it)
        invariant x.Some? ==> ns + [x.value] + it.restNodes == nodes
        invariant x.None? ==> ns == nodes
        decreases |it.restNodes| + (if x.Some? then 1 else 0)
      {
        ns := ns + [x.value];
        x := it.Next();
      }
    }

    /** `Drop`: unlinks the nodes head to tail, one per iteration. */
    method Drop()
      requires Valid()
      modifies Repr
      ensures Valid() && head == null && contents == []
      ensures forall n :: n in old(nodes) ==> n.next == null
    {
      var cur := head;
      assert Chain(cur, nodes, contents);
      head := null;
      ghost var k := 0;
      while cur != null
        invariant head == null && Repr == {this} + NodeSet(nodes) && |nodes| == |contents|
        invariant 0 <= k <= |nodes|
        invariant nodes == old(nodes)
        invariant cur == if k < |nodes| then nodes[k] else null
        invariant forall j :: 0 <= j < k ==> nodes[j].next == null
        invariant forall j :: k <= j < |nodes| - 1 ==> nodes[j].next == nodes[j + 1]
        invariant k < |nodes| ==> nodes[|nodes| - 1].next == null
        invariant forall i, j :: 0 <= i < j < |nodes| ==> nodes[i] != nodes[j]
        decreases |nodes| - k
      {
        var n := cur;
        assert n in NodeSet(nodes);
        cur := n.next;
        n.next := null;
        k := k + 1;
      }
      contents, nodes := [], [];
      Repr := {this};
    }
  }

  /** The borrowing iterator `Iter`: `next` is the node still to be visited. */
  class Iter<T> {
    var next: Node?<T>
    ghost var rest: seq<T>
    ghost var restNodes: seq<Node<T>>

    ghost predicate Valid()
      reads this, set n | n in restNodes
    {
      Chain(next, restNodes, rest)
    }

    constructor (first: Node?<T>, ghost ns: seq<Node<T>>, ghost vs: seq<T>)
      requires Chain(first, ns, vs)
      ensures Valid() && rest == vs && restNodes == ns
    {
      next := first;
      rest, restNodes := vs, ns;
    }

    /** `Iter::next`: yields the next value and steps forward. */
    method Next() returns (r: Option<T>)
      requires Valid()
      modifies this
      ensures Valid()
      ensures old(rest) == [] ==> r == None && rest == [] && restNodes == []
      ensures old(rest) != [] ==> r == Some(old(rest)[0]) && rest == old(rest)[1..] && restNodes == old(restNodes)[1..]
    {
      if next == null {
        r := None;
      } else {
        ChainRest(next, restNodes, rest);
        r := Some(next.val);
        next := next.next;
        rest, restNodes := rest[1..], restNodes[1..];
      }
    }
  }

  /** The mutable iterator `IterMut`: each call hands out the next node once. */
  class IterMut<T> {
    var next: Node?<T>
    ghost var rest: seq<T>
    ghost var restNodes: seq<Node<T>>

    ghost predicate Valid()
      reads this, set n | n in restNodes
    {
      Chain(next, restNodes, rest)
    }

    constructor (first: Node?<T>, ghost ns: seq<Node<T>>, ghost vs: seq<T>)
      requires Chain(first, ns, vs)
      ensures Valid() && rest == vs && restNodes == ns
    {
      next := first;
      rest, restNodes := vs, ns;
    }

    /** `IterMut::next`: takes the next node and steps forward. */
    method Next() returns (r: Option<Node<T>>)
      requires Valid()
      modifies this
      ensures Valid()
      ensures old(restNodes) == [] ==> r == None && restNodes == []
      ensures old(restNodes) != [] ==> r == Some(old(restNodes)[0]) && r.value.val == old(rest)[0] && restNodes == old(restNodes)[1..]
    {
      var n := next;
      next := null;
      if n == null {
        r := None;
      } else {
        ChainRest(n, restNodes, rest);
        next := n.next;
        r := Some(n);
        rest, restNodes := rest[1..], restNodes[1..];
      }
    }
  }

  /** The consuming iterator `IntoIter`: it owns the list and pops from it. */
  class IntoIter<T> {
    var ll: LinkedList<T>
    ghost var Repr: set<object>

    ghost predicate Valid()
      reads this, Repr
    {
      this in Repr && ll in Repr && ll.Repr <= Repr && this !in ll.Repr && ll.Valid()
    }

    /** `into_iter`: takes ownership of the list. */
    constructor (ll: LinkedList<T>)
      requires ll.Valid()
      ensures Valid() && this.ll == ll && Repr == {this} + ll.Repr
    {
      this.ll := ll;
      Repr := {this} + ll.Repr;
    }

    /** `IntoIter::next` is `pop`. */
    method Next() returns (r: Option<T>)
      requires Valid()
      modifies Repr
      ensures Valid() && ll == old(ll) && Repr <= old(Repr)
      ensures old(ll.contents) == [] ==> r == None && ll.contents == []
      ensures old(ll.contents) != [] ==> r == Some(old(ll.contents)[0]) && ll.contents == old(ll.contents)[1..]
    {
      r := ll.Pop();
      Repr := {this} + ll.Repr;
    }
  }

  /** The `linked_list` test: LIFO order across interleaved pushes and pops. */
  method LifoOrder() returns (a: Option<string>, b: Option<string>, c: Option<string>, d: Option<string>,
                              e: Option<string>, f: Option<string>, g: Option<string>)
    ensures a == None && b == Some("third") && c == Some("second")
    ensures d == Some("fifth") && e == Some("fourth") && f == Some("first") && g == None
  {
    var ll := new LinkedList<string>();
    a := ll.Pop();
    ll.Push("first");
    ll.Push("second");
    ll.Push("third");
    b := ll.Pop();
    c := ll.Pop();
    ll.Push("fourth");
    ll.Push("fifth");
    d := ll.Pop();
    e := ll.Pop();
    f := ll.Pop();
    g := ll.Pop();
  }

  /** The `into_iter` test: draining 1, 2, 3, 4 (pushed in that order) yields
      4, 3, 2, 1 and then nothing. */
  method IntoIterReverses() returns (vs: seq<Option<int>>)
    ensures vs == [Some(4), Some(3), Some(2), Some(1), None]
  {
    var ll := new LinkedList<int>();
    ll.Push(1);
    ll.Push(2);
    ll.Push(3);
    ll.Push(4);
    var it := new IntoIter(ll);
    var a := it.Next();
    var b := it.Next();
    var c := it.Next();
    var d := it.Next();
    var e := it.Next();
    vs := [a, b, c, d, e];
  }

  /** The `iter` test: two successive passes of `iter()` both yield 4, 3, 2, 1. */
  method IterTwice() returns (first: seq<int>, second: seq<int>)
    ensures first == [4, 3, 2, 1] && second == [4, 3, 2, 1]
  {
    var ll := new LinkedList<int>();
    ll.Push(1);
    ll.Push(2);
    ll.Push(3);
    ll.Push(4);
    first := ll.Values();
    second := ll.Values();
  }

  /** The `iter_mut` test: two successive passes of `iter_mut()` both reach the
      values 3, 2, 1. */
  method IterMutTwice() returns (first: seq<int>, second: seq<int>)
    ensures first == [3, 2, 1] && second == [3, 2, 1]
  {
    var ll := new LinkedList<int>();
    ll.Push(1);
    ll.Push(2);
    ll.Push(3);
    var ns := ll.MutPositions();
    first := [ns[0].val, ns[1].val, ns[2].val];
    ns := ll.MutPositions();
    second := [ns[0].val, ns[1].val, ns[2].val];
  }
}
