# Node-based sequence containers, modelled in Dafny

This project models three node-based sequence containers from a small Rust
repository. Each container is stated against an abstract sequence of values,
front first.

- **SinglyLinked** (`singly_linked.dfy`, for `src/ll.rs`): an exclusively
  owned singly-linked list used as a LIFO stack. It is a Dafny class over heap
  `Node` objects and has ghost `contents`, `nodes` and `Repr` fields. It
  models `push`, `pop`, `peek`, the indexed `get` and `get_mut` forward scans,
  the borrowing, mutable and consuming iterators, and the iterative `Drop`
  loop.
- **DoublyLinked** (`doubly_linked.dfy`, for `src/dll.rs`): the doubly-linked
  list whose nodes each have two owners. Nodes are heap objects with `next` and
  `prev` fields. `Valid()` holds the link structure, and `Owners(x)` counts the
  references the list holds to a node: the `head` and `tail` slots plus every
  `next` and `prev` link. This count replaces the `Rc` strong count. Every node
  of a valid list has exactly two owners. A popped node is `Unreferenced`
  (it has no owner left in the list), which is what `Rc::try_unwrap(..).ok().unwrap()`
  checks. The source's `pop_back` breaks this on a one-element list (see
  Findings).
- **Persistent** (`persistent.dfy`, for `src/immutable_ll.rs`): the immutable
  cons list. It is a datatype. `prepend`, `tail` and `head` are functions that
  build new versions, and those versions share the receiver's chain. The
  iterator is a small class. `Drop` is a loop that frees nodes from the front
  only while the current node has no other owner.

`wrappers.dfy` holds the `Option` datatype. All three containers use it as
their absent-value signal.

## Model

| member | source | states |
|---|---|---|
| SinglyLinked.LinkedList.constructor | src/ll.rs:14-16 | the new list is valid and empty, with no head |
| SinglyLinked.LinkedList.Push | src/ll.rs:18-24 | contents become `[val] + old`; the new head is a fresh node whose `next` is the old head |
| SinglyLinked.LinkedList.Pop | src/ll.rs:26-31 | on a non-empty list it returns `Some(old[0])` and leaves `old[1..]`; on an empty list it returns None and changes nothing |
| SinglyLinked.LinkedList.Get | src/ll.rs:33-39 | after `index` forward steps (staying on None past the end) the result is `Some(contents[index])` when `index < |contents|` and None otherwise |
| SinglyLinked.LinkedList.GetMut | src/ll.rs:41-47 | reaches the same position as `get`: the node at `index`, which holds `contents[index]`, and None exactly when `get` gives None |
| SinglyLinked.LinkedList.WriteAt | src/ll.rs:41-47 | writing through the node `get_mut(index)` reaches changes exactly `contents[index]` when `index < |contents|`, and nothing otherwise; the list stays valid |
| SinglyLinked.LinkedList.Peek | src/ll.rs:49-51 | the front value or None, the same as `get(0)`; the list is not modified |
| SinglyLinked.LinkedList.Iter | src/ll.rs:60-64 | a fresh iterator positioned at the head, with all of `contents` still to visit |
| SinglyLinked.LinkedList.IterMut | src/ll.rs:66-70 | a fresh mutable iterator positioned at the head, with every node still to hand out |
| SinglyLinked.LinkedList.Values | src/ll.rs:89-101 | a full pass of `iter()` yields exactly `contents`, front first, and leaves the list unchanged, so a second pass yields the same |
| SinglyLinked.LinkedList.MutPositions | src/ll.rs:108-116 | a full pass of `iter_mut()` hands out every node exactly once, in list order |
| SinglyLinked.LinkedList.Drop | src/ll.rs:119-126 | the teardown loop visits each node once and terminates; afterwards head is None and every former node's `next` is None |
| SinglyLinked.Iter.Next | src/ll.rs:89-101 | yields `Some` of the first remaining value and steps past it, or None once the rest is empty |
| SinglyLinked.IterMut.Next | src/ll.rs:108-116 | hands out the next node (holding the next value) and steps past it, or None at the end |
| SinglyLinked.IntoIter.constructor | src/ll.rs:53-55 | the consuming iterator takes over the list |
| SinglyLinked.IntoIter.Next | src/ll.rs:77-83 | has exactly the effect of `pop` on the owned list |
| SinglyLinked.LifoOrder | src/ll.rs:134-154 | the test's push/pop sequence yields None, third, second, fifth, fourth, first, None |
| SinglyLinked.IntoIterReverses | src/ll.rs:156-169 | draining a list built by pushing 1, 2, 3, 4 yields 4, 3, 2, 1 and then None |
| SinglyLinked.IterTwice | src/ll.rs:171-188 | two successive `iter()` passes both yield 4, 3, 2, 1 |
| SinglyLinked.IterMutTwice | src/ll.rs:190-210 | two successive `iter_mut()` passes both reach 3, 2, 1 |
| DoublyLinked.Node.constructor | src/dll.rs:17-25 | a new node holds the value and has no `next` or `prev` |
| DoublyLinked.DoublyLinkedList.constructor | src/dll.rs:28-33 | the new list is valid and empty, with both slots None |
| DoublyLinked.DoublyLinkedList.NodeHasTwoOwners | src/dll.rs:35-36 | in a valid list every node has exactly two owners among the slots and the links |
| DoublyLinked.DoublyLinkedList.OutsiderHasNoOwners | src/dll.rs:35-36 | a node that is not in a valid list has no owner in it |
| DoublyLinked.DoublyLinkedList.UnreferencedIffNoOwners | src/dll.rs:86 | a node is referenced by neither slot and by no `next`/`prev` exactly when its owner count in the list is zero |
| DoublyLinked.DoublyLinkedList.LinksAgree | src/dll.rs:35-36 | for any two nodes a, b of a valid list, `a.next == b` exactly when `b.prev == a` |
| DoublyLinked.DoublyLinkedList.EndsShape | src/dll.rs:35-36 | head and tail are None together, exactly when the list is empty; `head.prev` and `tail.next` are None; head and tail are the same node exactly when the length is 1 |
| DoublyLinked.DoublyLinkedList.PushFront | src/dll.rs:37-52 | contents become `[val] + old`; on an empty list head and tail are the same new node, which has no links; otherwise the new node's `next` is the old head, the old head's `prev` is the new node and the tail is unchanged |
| DoublyLinked.DoublyLinkedList.PushBack | src/dll.rs:54-69 | the mirror image: contents become `old + [val]`, and the old tail and the new node are linked both ways |
| DoublyLinked.DoublyLinkedList.PopFront | src/dll.rs:71-88 | on a non-empty list it returns the front value and leaves `old[1..]`; the removed node is unreferenced and has no links, so the unwrap succeeds; with one element both slots are cleared; on an empty list it returns None and changes nothing |
| DoublyLinked.DoublyLinkedList.PopBack | src/dll.rs:90-107 | corrected `pop_back`: it returns the last value and leaves `old[..|old|-1]`, the removed node is unreferenced, and with one element both slots are cleared; on an empty list it returns None and changes nothing |
| DoublyLinked.DoublyLinkedList.PopBackAsWritten | src/dll.rs:90-107 | `pop_back` as written: on a non-empty list it drops the last node from `nodes` and `contents`, clears the removed node's links and never grows the footprint; the unwrap panics exactly when the removed node is still referenced; on two or more elements it returns the last value and leaves a valid list, as PopBack does; on one element it panics, with `head` left on the removed node as its one remaining owner |
| DoublyLinked.DoublyLinkedList.Drop | src/dll.rs:129-133 | popping from the front until a pop gives None terminates with a valid, empty list and both slots None |
| DoublyLinked.IntoIter.constructor | src/dll.rs:109-114 | the consuming iterator takes over the list |
| DoublyLinked.IntoIter.Next | src/dll.rs:116-121 | has exactly the effect of `pop_front` |
| DoublyLinked.IntoIter.NextBack | src/dll.rs:123-127 | has exactly the effect of the corrected `pop_back` |
| DoublyLinked.Basics | src/dll.rs:139-166 | the test's front pushes and pops yield None, 3, 2, 5, 4, 1, None |
| DoublyLinked.FifoViaBackRemoval | src/dll.rs:90-107 | pushing 1, 2, 3 at the front and popping from the back with the corrected `pop_back` yields 1, 2, 3, then None |
| DoublyLinked.FifoViaBackRemovalAsWritten | src/dll.rs:90-107 | the same with the source's `pop_back` returns 1 and 2, then panics at the unwrap on the last element |
| DoublyLinked.IntoIterBothEnds | src/dll.rs:116-127 | `next` and `next_back` on 1, 2, 3 yield 1, 3, 2 and then None from both ends |
| DoublyLinked.SingleElementPopBackAsWritten | src/dll.rs:100-105 | one push followed by the source's `pop_back` panics at the unwrap |
| DoublyLinked.SingleElementPopBack | src/dll.rs:90-107 | one push followed by the corrected `pop_back` returns the value, and the next `pop_front` gives None |
| Persistent.New | src/immutable_ll.rs:15-17 | the new version is empty |
| Persistent.Prepend | src/immutable_ll.rs:19-26 | the new version's contents are `[val] + receiver`, and one `tail` of it is the receiver's own chain |
| Persistent.Tail | src/immutable_ll.rs:28-32 | the contents are `old[1..]` for a non-empty receiver and empty for an empty one |
| Persistent.Head | src/immutable_ll.rs:34-36 | the first value, or None for an empty version |
| Persistent.TailNContents | src/immutable_ll.rs:28-32 | n successive `tail`s drop the first n values, and past the end they give the empty version |
| Persistent.TailOfEmptyStaysEmpty | src/immutable_ll.rs:95-99 | any number of `tail`s of the empty version give the empty version |
| Persistent.PrependThenTail | src/immutable_ll.rs:19-36 | `new().head()` is None, `prepend(v).head()` is `Some(v)` and `prepend(v).tail()` is the receiver |
| Persistent.VersionsStayApart | src/immutable_ll.rs:19-26 | with L1 = L0.prepend(a) and L2 = L1.prepend(b), `L2.tail()` shows L1's contents, and a further L1.prepend(c) changes neither |
| Persistent.SuccessiveTails | src/immutable_ll.rs:81-100 | after `prepend(1).prepend(2).prepend(3)`, successive `tail`s show heads 3, 2, 1, then None, and None again |
| Persistent.Iter.constructor | src/immutable_ll.rs:38-42 | `iter` starts at the version's first node |
| Persistent.Iter.Next | src/immutable_ll.rs:49-62 | yields the current head and steps to the tail of the rest |
| Persistent.Values | src/immutable_ll.rs:49-62 | a full pass of `iter()` yields exactly the version's contents, front first, without changing the version |
| Persistent.IterInOrder | src/immutable_ll.rs:102-113 | iterating "one" prepended with "two" then "three" yields "three", "two", "one" |
| Persistent.Drop | src/immutable_ll.rs:64-75 | the teardown frees nodes from the front only while each has no other owner; it stops at the first shared node and releases only this version's reference to it; the suffix from there stays alive and untouched |
| Persistent.DropNewerVersion | src/immutable_ll.rs:64-75 | dropping a version that shares all but its first node with an older version frees one node and leaves the older version's contents and counts intact |

## Findings

| source | as written | input that shows it | evidently intended | confidence | as-written member | corrected member |
|---|---|---|---|---|---|---|
| src/dll.rs:100-102 | the `None` branch of `pop_back` (the removed node had no predecessor) runs `self.tail.take()` a second time | a list holding one element, then `pop_back()` | clear the head slot (`self.head.take()`), as `pop_front` clears the tail slot, so that the unwrap at line 105 finds the node unshared | not executed | DoublyLinked.DoublyLinkedList.PopBackAsWritten, exhibited by DoublyLinked.SingleElementPopBackAsWritten | DoublyLinked.DoublyLinkedList.PopBack, exhibited by DoublyLinked.SingleElementPopBack |

The rest of the model uses the corrected `PopBack`: `IntoIter.NextBack`
calls it.

## Left out

- `Rc`, `RefCell` and `Box` mechanics, borrow-flag panics and lifetimes are not modelled. A strong count becomes `Owners` (doubly-linked list) or an explicit count sequence (persistent list). A borrow becomes a plain reference to the node.
- Memory deallocation and stack depth are not modelled. The teardown loops are shown to terminate and to unlink what the source unlinks.
- DoublyLinked.DoublyLinkedList.PopBackAsWritten: the panic of `.ok().unwrap()` is modelled as the result `UnwrapPanic`, not as an abort. The state it leaves behind (stale `head`) is the state at the moment of the panic.
- DoublyLinked.DoublyLinkedList.Drop: its contract does not restate that each removed node ends up unlinked. Each `PopFront` call in the loop states that for the node it removes.
- Persistent.Drop: a version is a datatype value, so nodes have no identity. The owner count of each node is passed in as a sequence indexed by position along the chain, and the count after teardown is returned the same way. The version's own reference and the preceding node's `next` count as owners.
- SinglyLinked.LinkedList.GetMut: its result is the node itself. A bare write to that node's `val` is not tied to `contents` and breaks `Valid()` until `contents` is updated; `WriteAt` models the caller's write through `get_mut` and keeps both in step.
- `get` on the persistent list is not modelled. `benches/big_data.rs` calls one, but `src/immutable_ll.rs` defines no such method.
- The thread-safe persistent list is not part of this model. Its source is not among the files modelled and its point is atomic counting across threads.
- The benchmark harnesses (`benches/`) only drive the public operations, and their baselines are library types. They are not modelled.
- Element values are generic. The tests' `String` values are Dafny strings.
