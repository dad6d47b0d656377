/** Callers of the refined stack: the scenarios of the test in `stack/src/lib.rs`, and the
    general properties they illustrate, derived from the contracts of `RefinedStack` alone. */
module RefinedStackClients {
  import opened Common
  import opened RefinedStack

  /** Pushing `xs` one by one onto a new stack and then popping as many times gives `xs`
      back last-first, and one more pop finds the stack empty (last in, first out). */
  method PushThenPopAll<T>(xs: seq<T>) returns (popped: seq<T>, last: Option<T>)
    ensures popped == Reversed(xs) && last == None
  {
    var s := new Stack<T>();
    var i := 0;
    while i < |xs|
      invariant 0 <= i <= |xs|
      invariant s.Valid() && s.Contents() == Reversed(xs[..i])
    {
      s.Push(xs[i]);
      ReversedAppend(xs[..i], xs[i]);
      assert xs[..i + 1] == xs[..i] + [xs[i]];
      i := i + 1;
    }
    assert xs[..i] == xs;
    popped := [];
    while |popped| < |xs|
      invariant s.Valid() && popped + s.Contents() == Reversed(xs)
      decreases |s.Contents()|
    {
      ghost var before := s.Contents();
      var r := s.Pop();
      assert before == [r.value] + s.Contents();
      popped := popped + [r.value];
    }
    last := s.Pop();
  }

  /** Iterating with `iter` until it yields `None` visits every element once, head to tail,
      and leaves the stack as it was (the method may modify nothing that existed before). */
  method CollectIter<T>(s: Stack<T>) returns (items: seq<T>, last: Option<T>)
    requires s.Valid()
    ensures items == s.Contents() && last == None
  {
    var it := s.Iter();
    items := [];
    last := it.Next();
    while last.Some?
      invariant it.Valid() && it.remaining == s.nodes[|s.nodes| - |it.remaining|..]
      invariant last.Some? ==> items + [last.value] + it.Remaining() == s.Contents()
      invariant last.None? ==> items == s.Contents()
      decreases |it.remaining| + (if last.Some? then 1 else 0)
    {
      items := items + [last.value];
      last := it.Next();
    }
  }

  /** Writing `v` through the reference `peek_mut` returns replaces the head element and
      nothing else; on an empty stack there is no reference and nothing changes. */
  method WriteThroughPeekMut<T>(s: Stack<T>, v: T) returns (written: bool)
    requires s.Valid()
    modifies s.nodes`elem
    ensures s.Valid() && s.nodes == old(s.nodes)
    ensures written <==> old(s.Contents()) != []
    ensures s.Contents() == if written then [v] + old(s.Contents())[1..] else old(s.Contents())
  {
    var r := s.PeekMut();
    if r.Some? {
      ChainUnique(s.head, s.nodes, 0);
      r.value.elem := v;
      written := true;
    } else {
      written := false;
    }
  }

  /** Writing `v` through every reference `iter_mut` yields sets every element to `v` and
      keeps the chain as it was. */
  method FillThroughIterMut<T>(s: Stack<T>, v: T)
    requires s.Valid()
    modifies s.nodes`elem
    ensures s.Valid() && s.nodes == old(s.nodes)
    ensures |s.Contents()| == |old(s.Contents())|
    ensures forall k :: 0 <= k < |s.Contents()| ==> s.Contents()[k] == v
  {
    var it := s.IterMut();
    ghost var done := 0;
    while true
      invariant it.Valid() && done <= |s.nodes| && it.remaining == s.nodes[done..]
      invariant forall k :: 0 <= k < done ==> s.nodes[k].elem == v
      decreases |s.nodes| - done
    {
      var r := it.Next();
      if r.None? {
        break;
      }
      ChainUnique(s.head, s.nodes, done);
      r.value.elem := v;
      done := done + 1;
    }
    forall k | 0 <= k < |s.Contents()|
      ensures s.Contents()[k] == v
    {
      ElemsAt(s.nodes, k);
    }
  }

  /** The test's first part: popping a new stack gives `None`; after pushing 1, 2 and 3,
      each `peek` shows what the following `pop` returns, 3 then 2 then 1, and then both
      report an empty stack. */
  method LifoScenario() returns (observed: seq<Option<int>>)
    ensures observed == [None, Some(3), Some(3), Some(2), Some(2), Some(1), Some(1), None, None]
  {
    var s := new Stack<int>();
    var pop0 := s.Pop();
    assert pop0 == None;
    s.Push(1);
    s.Push(2);
    s.Push(3);
    var peek3 := s.Peek();
    assert peek3 == Some(3);
    var pop3 := s.Pop();
    assert pop3 == Some(3);
    var peek2 := s.Peek();
    assert peek2 == Some(2);
    var pop2 := s.Pop();
    assert pop2 == Some(2);
    var peek1 := s.Peek();
    assert peek1 == Some(1);
    var pop1 := s.Pop();
    assert pop1 == Some(1);
    var peekEnd := s.Peek();
    assert peekEnd == None;
    var popEnd := s.Pop();
    observed := [pop0, peek3, pop3, peek2, pop2, peek1, pop1, peekEnd, popEnd];
  }

  /** The test's second part: after pushing 3, `peek_mut` refers to 3; writing 4 through
      it makes `peek` show 4, `pop` return 4, and the next `pop` find the stack empty. */
  method PeekMutScenario() returns (observed: seq<Option<int>>)
    ensures observed == [Some(3), Some(4), Some(4), None]
  {
    var s := new Stack<int>();
    s.Push(3);
    var m := s.PeekMut();
    var before := m.value.elem;
    m.value.elem := 4;
    var peek4 := s.Peek();
    var pop4 := s.Pop();
    var popEnd := s.Pop();
    observed := [Some(before), peek4, pop4, popEnd];
  }

  /** The test's third part: after pushing 5 and 4, `iter` yields 4, then 5, then `None`;
      after pushing 6, the first reference `iter_mut` yields refers to 6. */
  method IterScenario() returns (observed: seq<Option<int>>)
    ensures observed == [Some(4), Some(5), None, Some(6)]
  {
    var s := new Stack<int>();
    s.Push(5);
    s.Push(4);
    var it := s.Iter();
    assert it.Remaining() == s.Contents() == [4, 5];
    var first := it.Next();
    assert first == Some(4);
    var second := it.Next();
    assert second == Some(5);
    var end := it.Next();
    assert end == None;
    s.Push(6);
    var itm := s.IterMut();
    var m := itm.Next();
    assert m.value.elem == s.Contents()[0] == 6;
    observed := [first, second, end, Some(m.value.elem)];
  }
}
