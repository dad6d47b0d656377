/** Callers of the earlier stack: the scenario of the test in `bad-stack/src/lib.rs`, and the
    general last-in-first-out property it illustrates, derived from the contracts of
    `BadStack` alone. */
module BadStackClients {
  import opened Common
  import opened BadStack

  /** Pushing `xs` one by one onto a new stack and then popping as many times gives `xs`
      back last-first, and one more pop finds the stack empty. */
  method PushThenPopAll<T>(xs: seq<T>) returns (popped: seq<T>, last: Option<T>)
    ensures popped == Reversed(xs) && last == None
  {
    var s := new Stack<T>();
    var i := 0;
    while i < |xs|
      invariant 0 <= i <= |xs|
      invariant s.Valid() && s.Contents() == Reversed(xs[..i])
    {
      s.Push(xs[i]);
      ReversedAppend(xs[..i], xs[i]);
      assert xs[..i + 1] == xs[..i] + [xs[i]];
      i := i + 1;
    }
    assert xs[..i] == xs;
    popped := [];
    while |popped| < |xs|
      invariant s.Valid() && popped + s.Contents() == Reversed(xs)
      decreases |s.Contents()|
    {
      ghost var before := s.Contents();
      assert s.head.More?;
      var r := s.Pop();
      assert before == [r.value] + s.Contents();
      popped := popped + [r.value];
    }
    last := s.Pop();
  }

  /** The test: popping a new stack gives `None`; after pushing 1, 2 and 3 the pops return
      3, 2 and 1, and then `None`. */
  method LifoScenario() returns (observed: seq<Option<int>>)
    ensures observed == [None, Some(3), Some(2), Some(1), None]
  {
    var s := new Stack<int>();
    var pop0 := s.Pop();
    assert pop0 == None;
    s.Push(1);
    s.Push(2);
    s.Push(3);
    var pop3 := s.Pop();
    assert pop3 == Some(3);
    var pop2 := s.Pop();
    assert pop2 == Some(2);
    var pop1 := s.Pop();
    assert pop1 == Some(1);
    var popEnd := s.Pop();
    observed := [pop0, pop3, pop2, pop1, popEnd];
  }
}
