/** The refined stack of `stack/src/lib.rs`: a singly-linked LIFO stack whose links are
    `Option<Box<Node<T>>>`, with `peek`, `peek_mut`, a teardown loop and two cursor iterators.

    A link is a nullable reference (`Node?<T>`; `null` is `None`). The stack carries a ghost
    sequence `nodes`, head first, that names every node of its chain; `Chain` ties it to the
    real `next` pointers, and the element sequence `Contents()` is read off those nodes. */
module RefinedStack {
  import opened Common

  /** One element and the link to the rest of the chain. */
  class Node<T> {
    var elem: T
    var next: Node?<T>

    constructor (elem: T, next: Node?<T>)
      ensures this.elem == elem && this.next == next
    {
      this.elem := elem;
      this.next := next;
    }
  }

  /** The link that the `i`-th node of a chain `ns` must hold: the next node, or `null` after the last. */
  ghost function Successor<T>(ns: seq<Node<T>>, i: nat): Node?<T>
  {
    if i + 1 < |ns| then ns[i + 1] else null
  }

  /** `first` is the link to a finite chain whose nodes, head to tail, are `ns`: every node
      links to the one after it and the last links to nothing. */
  ghost predicate Chain<T>(first: Node?<T>, ns: seq<Node<T>>)
    reads ns`next
  {
    && first == (if ns == [] then null else ns[0])
    && (forall i :: 0 <= i < |ns| ==> ns[i].next == Successor(ns, i))
  }

  /** A chain is acyclic: no node occurs in it twice, so each node has exactly one owner,
      the link before it. (Were `ns[i]` and `ns[j]` the same node, the links after them would
      agree as well, up to the last node, whose link is empty while an earlier one's is not.) */
  lemma {:induction false} ChainAcyclic<T>(first: Node?<T>, ns: seq<Node<T>>, i: nat, j: nat)
    requires Chain(first, ns) && i < j < |ns|
    ensures ns[i] != ns[j]
    decreases |ns| - j
  {
    assert ns[i].next == Successor(ns, i) == ns[i + 1];
    assert ns[j].next == Successor(ns, j);
    if j + 1 < |ns| {
      ChainAcyclic(first, ns, i + 1, j + 1);
    }
  }

  /** The `k`-th node of a chain occurs neither before nor after position `k`. */
  lemma ChainUnique<T>(first: Node?<T>, ns: seq<Node<T>>, k: nat)
    requires Chain(first, ns) && k < |ns|
    ensures ns[k] !in ns[..k] && ns[k] !in ns[k + 1..]
  {
    forall i | 0 <= i < k
      ensures ns[i] != ns[k]
    {
      ChainAcyclic(first, ns, i, k);
    }
    forall i | k < i < |ns|
      ensures ns[k] != ns[i]
    {
      ChainAcyclic(first, ns, k, i);
    }
  }

  /** The elements held by the nodes `ns`, in the same order. */
  ghost function Elems<T>(ns: seq<Node<T>>): (s: seq<T>)
    reads ns`elem
    ensures |s| == |ns|
  {
    if ns == [] then [] else [ns[0].elem] + Elems(ns[1..])
  }

  /** The `k`-th element of a chain is the element stored in its `k`-th node. */
  lemma {:induction false} ElemsAt<T>(ns: seq<Node<T>>, k: nat)
    requires k < |ns|
    ensures Elems(ns)[k] == ns[k].elem
  {
    if k > 0 {
      ElemsAt(ns[1..], k - 1);
    }
  }

  /** What follows the head node of a chain is itself a chain. */
  lemma ChainTail<T>(first: Node?<T>, ns: seq<Node<T>>)
    requires Chain(first, ns) && ns != []
    ensures Chain(ns[0].next, ns[1..])
  {
  }

  /** The real pointers fix the chain: two node sequences that both follow the `next`
      links from the same head are the same sequence. */
  lemma {:induction false} ChainDeterminedByLink<T>(first: Node?<T>, ns: seq<Node<T>>, ms: seq<Node<T>>)
    requires Chain(first, ns) && Chain(first, ms)
    ensures ns == ms
    decreases |ns|
  {
    if first != null {
      ChainTail(first, ns);
      ChainTail(first, ms);
      ChainDeterminedByLink(ns[0].next, ns[1..], ms[1..]);
      assert ns == [ns[0]] + ns[1..];
      assert ms == [ms[0]] + ms[1..];
    }
  }

  class Stack<T> {
    var head: Node?<T>
    /** The nodes of the chain, head first. */
    ghost var nodes: seq<Node<T>>

    ghost predicate Valid()
      reads this, nodes`next
    {
      Chain(head, nodes)
    }

    /** The stack's elements, the most recently pushed first. */
    ghost function Contents(): (s: seq<T>)
      reads this, nodes`elem
      ensures |s| == |nodes|
    {
      Elems(nodes)
    }

    /** `new`: an empty stack. */
    constructor ()
      ensures Valid() && nodes == [] && Contents() == []
    {
      head := null;
      nodes := [];
    }

    /** `push`: a new node holding `elem` takes over the old chain and becomes the head. */
    method Push(elem: T)
      requires Valid()
      modifies this
      ensures Valid()
      ensures Contents() == [elem] + old(Contents())
      ensures fresh(nodes[0]) && nodes[1..] == old(nodes)
    {
      var rest := head;
      head := null;
      var node := new Node(elem, rest);
      head := node;
      nodes := [node] + nodes;
    }

    /** `pop`: on an empty stack, `None` and no change; otherwise the head element, with the
        second node promoted to head. */
    method Pop() returns (r: Option<T>)
      requires Valid()
      modifies this
      ensures Valid()
      ensures old(Contents()) == [] ==> r == None && Contents() == [] && nodes == []
      ensures old(Contents()) != [] ==>
                r == Some(old(Contents())[0]) && Contents() == old(Contents())[1..] && nodes == old(nodes)[1..]
    {
      var taken := head;
      head := null;
      if taken == null {
        r := None;
      } else {
        head := taken.next;
        r := Some(taken.elem);
        nodes := nodes[1..];
      }
    }

    /** `peek`: the element the next `pop` would return, or `None` on an empty stack; it
        changes nothing (the method may modify nothing). */
    method Peek() returns (r: Option<T>)
      requires Valid()
      ensures r.None? <==> Contents() == []
      ensures r.Some? ==> r.value == Contents()[0]
    {
      if head == null {
        r := None;
      } else {
        r := Some(head.elem);
      }
    }

    /** `peek_mut`: a mutable reference to the head element, modelled as the head node (the
        place that holds it), or `None` on an empty stack. A caller writes through it by
        assigning its `elem`. */
    method PeekMut() returns (r: Option<Node<T>>)
      requires Valid()
      ensures r.None? <==> Contents() == []
      ensures r.Some? ==> r.value == nodes[0] && r.value.elem == Contents()[0]
    {
      if head == null {
        r := None;
      } else {
        r := Some(head);
      }
    }

    /** `iter`: a cursor that starts at the head. */
    method Iter() returns (it: Iter<T>)
      requires Valid()
      ensures fresh(it) && it.Valid() && it.remaining == nodes && it.Remaining() == Contents()
    {
      it := new Iter(head, nodes);
    }

    /** `iter_mut`: a cursor over mutable references that starts at the head. */
    method IterMut() returns (it: IterMut<T>)
      requires Valid()
      ensures fresh(it) && it.Valid() && it.remaining == nodes && it.Remaining() == Contents()
    {
      it := new IterMut(head, nodes);
    }

    /** `Drop::drop`: takes the chain out of the head, then detaches the nodes one at a time,
        clearing each node's `next` before moving on, so that no release recurses. */
    method Drop()
      requires Valid()
      modifies this, nodes`next
      ensures Valid() && head == null && nodes == []
      ensures forall i :: 0 <= i < |old(nodes)| ==> old(nodes)[i].next == null
    {
      var cur := head;
      head := null;
      ghost var rest := nodes;
      nodes := [];
      while cur != null
        invariant head == null && nodes == []
        invariant Chain(cur, rest)
        invariant |rest| <= |old(nodes)| && rest == old(nodes)[|old(nodes)| - |rest|..]
        invariant forall i :: 0 <= i < |old(nodes)| - |rest| ==> old(nodes)[i].next == null
        decreases |rest|
      {
        ChainUnique(cur, rest, 0);
        var node := cur;
        cur := node.next;
        node.next := null;
        rest := rest[1..];
      }
    }
  }

  /** The cursor behind `iter`: the link to the next node to visit. */
  class Iter<T> {
    var next: Node?<T>
    /** The nodes still to visit, in order. */
    ghost var remaining: seq<Node<T>>

    ghost predicate Valid()
      reads this, remaining`next
    {
      Chain(next, remaining)
    }

    /** The elements still to be yielded. */
    ghost function Remaining(): (s: seq<T>)
      reads this, remaining`elem
      ensures |s| == |remaining|
    {
      Elems(remaining)
    }

    constructor (first: Node?<T>, ghost ns: seq<Node<T>>)
      requires Chain(first, ns)
      ensures Valid() && remaining == ns
    {
      next := first;
      remaining := ns;
    }

    /** `Iterator::next`: yields the current element and moves to the following node; once
        the end is reached it yields `None` and stays there. */
    method Next() returns (r: Option<T>)
      requires Valid()
      modifies this
      ensures Valid()
      ensures old(remaining) == [] ==> r == None && remaining == []
      ensures old(remaining) != [] ==>
                r == Some(old(Remaining())[0]) && remaining == old(remaining)[1..] &&
                Remaining() == old(Remaining())[1..]
    {
      if next != null {
        var node := next;
        next := node.next;
        r := Some(node.elem);
        remaining := remaining[1..];
      } else {
        r := None;
      }
    }
  }

  /** The cursor behind `iter_mut`: the link to the next node to visit. */
  class IterMut<T> {
    var next: Node?<T>
    /** The nodes still to visit, in order. */
    ghost var remaining: seq<Node<T>>

    ghost predicate Valid()
      reads this, remaining`next
    {
      Chain(next, remaining)
    }

    /** The elements the references still to be yielded refer to. */
    ghost function Remaining(): (s: seq<T>)
      reads this, remaining`elem
      ensures |s| == |remaining|
    {
      Elems(remaining)
    }

    constructor (first: Node?<T>, ghost ns: seq<Node<T>>)
      requires Chain(first, ns)
      ensures Valid() && remaining == ns
    {
      next := first;
      remaining := ns;
    }

    /** `Iterator::next`: takes the cursor, yields a mutable reference to the current element
        (modelled as the node that holds it) and moves to the following node; once the end
        is reached it yields `None` and stays there. */
    method Next() returns (r: Option<Node<T>>)
      requires Valid()
      modifies this
      ensures Valid()
      ensures old(remaining) == [] ==> r == None && remaining == []
      ensures old(remaining) != [] ==>
                r == Some(old(remaining)[0]) && r.value.elem == old(Remaining())[0] &&
                remaining == old(remaining)[1..]
    {
      var taken := next;
      next := null;
      if taken != null {
        next := taken.next;
        r := Some(taken);
        remaining := remaining[1..];
      } else {
        r := None;
      }
    }
  }
}
