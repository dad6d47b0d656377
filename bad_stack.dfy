/** The earlier stack of `bad-stack/src/lib.rs`: a singly-linked LIFO stack whose links are the
    explicit enum `Link::Empty | Link::More(Box<Node>)`, moved with `mem::replace`, and torn
    down by a loop. It has no `peek` and no iterators.

    `Link` is a datatype whose `More` case holds a reference to a heap node. As in
    `RefinedStack`, the stack carries a ghost sequence `nodes`, head first, tied to the real
    links by `Chain`, and its elements `Contents()` are read off those nodes. */
module BadStack {
  import opened Common

  /** `enum Link { Empty, More(Box<Node>) }`. */
  datatype Link<T> = Empty | More(node: Node<T>)

  /** One element and the link to the rest of the chain. */
  class Node<T> {
    var elem: T
    var next: Link<T>

    constructor (elem: T, next: Link<T>)
      ensures this.elem == elem && this.next == next
    {
      this.elem := elem;
      this.next := next;
    }
  }

  /** The link to the node at position `i` of `ns`, or `Empty` past the end. */
  ghost function LinkAt<T>(ns: seq<Node<T>>, i: nat): Link<T>
  {
    if i < |ns| then More(ns[i]) else Empty
  }

  /** `first` is the link to a finite chain whose nodes, head to tail, are `ns`: every node
      links to the one after it and the last links to `Empty`. */
  ghost predicate Chain<T>(first: Link<T>, ns: seq<Node<T>>)
    reads ns`next
  {
    && first == LinkAt(ns, 0)
    && (forall i :: 0 <= i < |ns| ==> ns[i].next == LinkAt(ns, i + 1))
  }

  /** The elements held by the nodes `ns`, in the same order. */
  ghost function Elems<T>(ns: seq<Node<T>>): (s: seq<T>)
    reads ns`elem
    ensures |s| == |ns|
  {
    if ns == [] then [] else [ns[0].elem] + Elems(ns[1..])
  }

  /** A chain is acyclic: no node occurs in it twice, so each node has exactly one owner,
      the link before it. */
  lemma {:induction false} ChainAcyclic<T>(first: Link<T>, ns: seq<Node<T>>, i: nat, j: nat)
    requires Chain(first, ns) && i < j < |ns|
    ensures ns[i] != ns[j]
    decreases |ns| - j
  {
    assert ns[i].next == LinkAt(ns, i + 1) == More(ns[i + 1]);
    assert ns[j].next == LinkAt(ns, j + 1);
    if j + 1 < |ns| {
      ChainAcyclic(first, ns, i + 1, j + 1);
    }
  }

  /** The head node of a chain occurs nowhere in the rest of it. */
  lemma HeadNotInTail<T>(first: Link<T>, ns: seq<Node<T>>)
    requires Chain(first, ns) && ns != []
    ensures ns[0] !in ns[1..]
  {
    forall i | 0 < i < |ns|
      ensures ns[0] != ns[i]
    {
      ChainAcyclic(first, ns, 0, i);
    }
  }

  /** What follows the head node of a chain is itself a chain. */
  lemma ChainTail<T>(first: Link<T>, ns: seq<Node<T>>)
    requires Chain(first, ns) && ns != []
    ensures Chain(ns[0].next, ns[1..])
  {
  }

  /** The real links fix the chain: two node sequences that both follow the `next` links from
      the same head link are the same sequence. */
  lemma {:induction false} ChainDeterminedByLink<T>(first: Link<T>, ns: seq<Node<T>>, ms: seq<Node<T>>)
    requires Chain(first, ns) && Chain(first, ms)
    ensures ns == ms
    decreases |ns|
  {
    if first.More? {
      ChainTail(first, ns);
      ChainTail(first, ms);
      ChainDeterminedByLink(ns[0].next, ns[1..], ms[1..]);
      assert ns == [ns[0]] + ns[1..];
      assert ms == [ms[0]] + ms[1..];
    }
  }

  class Stack<T> {
    var head: Link<T>
    /** The nodes of the chain, head first. */
    ghost var nodes: seq<Node<T>>

    ghost predicate Valid()
      reads this, nodes`next
    {
      Chain(head, nodes)
    }

    /** The stack's elements, the most recently pushed first. */
    ghost function Contents(): (s: seq<T>)
      reads this, nodes`elem
      ensures |s| == |nodes|
    {
      Elems(nodes)
    }

    /** `new`: a stack whose head is `Empty`. */
    constructor ()
      ensures Valid() && head == Empty && nodes == [] && Contents() == []
    {
      head := Empty;
      nodes := [];
    }

    /** `push`: the old chain is swapped out of the head (leaving `Empty`), a new node holding
        `elem` takes it over, and the head becomes `More` of that node. */
    method Push(elem: T)
      requires Valid()
      modifies this
      ensures Valid()
      ensures Contents() == [elem] + old(Contents())
      ensures fresh(nodes[0]) && nodes[1..] == old(nodes)
      ensures head == More(nodes[0]) && nodes[0].next == old(head)
    {
      var rest := head;
      head := Empty;
      var node := new Node(elem, rest);
      head := More(node);
      nodes := [node] + nodes;
    }

    /** `pop`: the head is swapped out for `Empty`; on `Empty` the result is `None` and the head
        stays `Empty`; on `More(node)` the node's `next` becomes the head and its element is
        returned. */
    method Pop() returns (r: Option<T>)
      requires Valid()
      modifies this
      ensures Valid()
      ensures old(head) == Empty ==> r == None && head == Empty && Contents() == []
      ensures old(head).More? ==>
                r == Some(old(Contents())[0]) && Contents() == old(Contents())[1..] &&
                nodes == old(nodes)[1..] && head == old(head.node.next)
    {
      var taken := head;
      head := Empty;
      match taken
      case Empty =>
        r := None;
      case More(node) =>
        head := node.next;
        r := Some(node.elem);
        nodes := nodes[1..];
    }

    /** `Drop::drop`: swaps the chain out of the head, then detaches the nodes one at a time,
        replacing each node's `next` by `Empty` before moving on. */
    method Drop()
      requires Valid()
      modifies this, nodes`next
      ensures Valid() && head == Empty && nodes == []
      ensures forall i :: 0 <= i < |old(nodes)| ==> old(nodes)[i].next == Empty
    {
      var cur := head;
      head := Empty;
      ghost var rest := nodes;
      nodes := [];
      while cur.More?
        invariant head == Empty && nodes == []
        invariant Chain(cur, rest)
        invariant |rest| <= |old(nodes)| && rest == old(nodes)[|old(nodes)| - |rest|..]
        invariant forall i :: 0 <= i < |old(nodes)| - |rest| ==> old(nodes)[i].next == Empty
        decreases |rest|
      {
        HeadNotInTail(cur, rest);
        var boxed := cur.node;
        cur := boxed.next;
        boxed.next := Empty;
        rest := rest[1..];
      }
    }
  }
}
