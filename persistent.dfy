/** The persistent (immutable, structurally shared) list. A version is a chain
    of immutable nodes; `prepend` and `tail` build new versions that share the
    receiver's nodes instead of copying them. */
module Persistent {
  import opened Wrappers

  /** A version's chain of nodes: `Nil` is the empty `head` slot. */
  datatype List<T> = Nil | Cons(val: T, next: List<T>)

  /** The values of a version, front first. */
  function Contents<T>(l: List<T>): seq<T>
  {
    match l
    case Nil => []
    case Cons(v, rest) => [v] + Contents(rest)
  }

  /** `ImmutableLinkedList::new`: the empty version. */
  function New<T>(): (r: List<T>)
    ensures Contents(r) == []
  {
    Nil
  }

  /** `prepend`: a new version whose fresh first node refers to the receiver's
      chain, which is shared as it is. */
  function Prepend<T>(l: List<T>, val: T): (r: List<T>)
    ensures Contents(r) == [val] + Contents(l)
    ensures TailN(r, 1) == l
  {
    Cons(val, l)
  }

  /** `tail`: the version that starts at the successor of the receiver's first
      node; the empty version for an empty receiver. */
  function Tail<T>(l: List<T>): (r: List<T>)
    ensures Contents(r) == if Contents(l) == [] then [] else Contents(l)[1..]
  {
    match l
    case Nil => Nil
    case Cons(_, rest) => rest
  }

  /** `head`: the first value, if any. */
  function Head<T>(l: List<T>): (r: Option<T>)
    ensures r == if Contents(l) == [] then None else Some(Contents(l)[0])
  {
    match l
    case Nil => None
    case Cons(v, _) => Some(v)
  }

  /** `n` successive calls of `tail`. */
  function TailN<T>(l: List<T>, n: nat): List<T>
  {
    if n == 0 then l else TailN(Tail(l), n - 1)
  }

  /** `n` successive `tail`s drop the first `n` values, and past the end they
      give the empty version. */
  lemma {:induction false} TailNContents<T>(l: List<T>, n: nat)
    ensures Contents(TailN(l, n)) == if n <= |Contents(l)| then Contents(l)[n..] else []
  {
    if n > 0 {
      TailNContents(Tail(l), n - 1);
      if l.Cons? && n <= |Contents(l)| {
        assert Contents(l)[1..][n - 1..] == Contents(l)[n..];
      }
    }
  }

  /** Repeated `tail` on the empty version stays empty and never fails. */
  lemma {:induction false} TailOfEmptyStaysEmpty<T>(n: nat)
    ensures TailN(New<T>(), n) == New<T>()
  {
    if n > 0 {
      TailOfEmptyStaysEmpty<T>(n - 1);
    }
  }

  /** `head` of `new()` is nothing; `prepend(v)` puts `v` in front of the
      receiver, and its `tail` is the receiver itself. */
  lemma PrependThenTail<T>(l: List<T>, v: T)
    ensures Head(New<T>()) == None
    ensures Head(Prepend(l, v)) == Some(v)
    ensures Tail(Prepend(l, v)) == l
    ensures Contents(Tail(Prepend(l, v))) == Contents(l)
  {
  }

  /** Persistence: with L1 = L0.prepend(a) and L2 = L1.prepend(b), `L2.tail()`
      shows what L1 shows, and extending L1 again changes neither. */
  lemma VersionsStayApart<T>(l0: List<T>, a: T, b: T, c: T)
    ensures var l1 := Prepend(l0, a); var l2 := Prepend(l1, b); var l3 := Prepend(l1, c);
      Contents(Tail(l2)) == Contents(l1) && Contents(l2) == [b, a] + Contents(l0) &&
      Contents(Tail(l3)) == Contents(Tail(l2))
  {
  }

  /** The `immutable_linked_list` test: after `prepend(1).prepend(2).prepend(3)`
      successive `tail`s expose the heads 3, 2, 1 and then nothing, twice. */
  lemma SuccessiveTails()
    ensures var l := Prepend(Prepend(Prepend(New(), 1), 2), 3);
      Head(New<int>()) == None &&
      Head(l) == Some(3) && Head(TailN(l, 1)) == Some(2) && Head(TailN(l, 2)) == Some(1) &&
      Head(TailN(l, 3)) == None && Head(TailN(l, 4)) == None
  {
  }

  /** The borrowing iterator `Iter`: `next` is the rest of the chain still to
      be visited. */
  class Iter<T> {
    var next: List<T>

    /** `iter`: starts at the version's first node. */
    constructor (l: List<T>)
      ensures next == l
    {
      next := l;
    }

    /** `Iter::next`: yields the value of the current node and steps to its
        successor. */
    method Next() returns (r: Option<T>)
      modifies this
      ensures r == Head(old(next)) && next == Tail(old(next))
    {
      match next
      case Nil =>
        r := None;
      case Cons(v, rest) =>
        r := Some(v);
        next := rest;
    }
  }

  /** One full pass of `iter()`: it yields the version's values front first. */
  method Values<T>(l: List<T>) returns (vs: seq<T>)
    ensures vs == Contents(l)
  {
    var it := new Iter(l);
    vs := [];
    var x := it.Next();
    while x.Some?
      invariant fresh(it)
      invariant x.Some? ==> vs + [x.value] + Contents(it.next) == Contents(l)
      invariant x.None? ==> vs == Contents(l)
      decreases |Contents(it.next)| + (if x.Some? then 1 else 0)
    {
      vs := vs + [x.value];
      x := it.Next();
    }
  }

  /** The `iter` test. */
  method IterInOrder() returns (a: Option<string>, b: Option<string>, c: Option<string>)
    ensures a == Some("three") && b == Some("two") && c == Some("one")
  {
    var l := Prepend(Prepend(Prepend(New(), "one"), "two"), "three");
    var it := new Iter(l);
    a := it.Next();
    b := it.Next();
    c := it.Next();
  }

  /** `Drop`: tears the version down from its first node. `owners[i]` is the
      number of owners of the `i`-th node of the chain, this version's own
      reference included. A node with no other owner is freed and its `next`
      reference is taken over by the loop; at the first node that is still
      shared the loop gives up this version's reference and stops.
      `freed` is how many nodes were freed, `kept` the chain that stays alive
      and `after` the owner counts afterwards. */
  method Drop<T>(l: List<T>, owners: seq<nat>) returns (freed: nat, kept: List<T>, after: seq<nat>)
    requires |owners| == |Contents(l)|
    requires forall i :: 0 <= i < |owners| ==> owners[i] >= 1
    ensures freed <= |owners|
    ensures forall i :: 0 <= i < freed ==> owners[i] == 1
    ensures freed < |owners| ==> owners[freed] > 1
    ensures kept == TailN(l, freed) && Contents(kept) == Contents(l)[freed..]
    ensures |after| == |owners|
    ensures forall i :: 0 <= i < freed ==> after[i] == 0
    ensures freed < |owners| ==> after[freed] == owners[freed] - 1
    ensures forall i :: freed < i < |owners| ==> after[i] == owners[i]
  {
    var cur := l;
    var i := 0;
    after := owners;
    TailNContents(l, 0);
    while cur.Cons?
      invariant 0 <= i <= |owners| && cur == TailN(l, i)
      invariant Contents(cur) == Contents(l)[i..]
      invariant |after| == |owners|
      invariant forall j :: 0 <= j < i ==> owners[j] == 1 && after[j] == 0
      invariant forall j :: i <= j < |owners| ==> after[j] == owners[j]
      decreases |owners| - i
    {
      if after[i] == 1 {
        // Rc::try_unwrap succeeds: the node is freed, the loop takes its `next`
        after := after[i := 0];
        TailNContents(l, i + 1);
        cur, i := cur.next, i + 1;
        assert cur == TailN(l, i) by { TailNStep(l, i - 1); }
      } else {
        // still shared: only this version's reference is released
        after := after[i := after[i] - 1];
        break;
      }
    }
    freed, kept := i, cur;
  }

  /** One more `tail` after `n` of them. */
  lemma {:induction false} TailNStep<T>(l: List<T>, n: nat)
    ensures TailN(l, n + 1) == Tail(TailN(l, n))
  {
    if n > 0 {
      TailNStep(Tail(l), n - 1);
    }
  }

  /** Dropping the newest of two versions that share a chain frees only the
      node the newer one added, and leaves the older version intact. */
  method DropNewerVersion() returns (freed: nat, kept: List<int>, after: seq<nat>)
    ensures freed == 1 && Contents(kept) == [2, 1] && after == [0, 1, 1]
  {
    var older := Prepend(Prepend(New(), 1), 2);
    var newer := Prepend(older, 3);
    // the newer version owns its first node alone; the older version's first
    // node is owned by both versions
    assert Contents(newer) == [3, 2, 1];
    var owners := [1, 2, 1];
    freed, kept, after := Drop(newer, owners);
    // proof hint: node 1 is shared, so the teardown cannot pass it
    assert owners[1] > 1;
  }
}
