# Singly-linked LIFO stack, two variants

This project models, in Dafny, the two singly-linked last-in-first-out stacks of the
repository and proves what their operations do.

- `RefinedStack` (`stack.dfy`) is the refined stack of `stack/src/lib.rs`. Its link is
  `Option<Box<Node<T>>>`, modelled as a nullable reference `Node?<T>`. It has `new`, `push`,
  `pop`, `peek`, `peek_mut`, the iterative `Drop`, and the two cursors `Iter` and `IterMut`.
- `BadStack` (`bad_stack.dfy`) is the earlier stack of `bad-stack/src/lib.rs`. Its link is the
  explicit enum `Link::Empty | Link::More(Box<Node>)`, modelled as a datatype whose `More`
  case holds a heap node. It has `new`, `push`, `pop` and the iterative `Drop`, all written
  with the `mem::replace` swaps of the source.
- `Common` (`common.dfy`) holds Rust's `Option` and the sequence reversal that states LIFO order.
- `RefinedStackClients` and `BadStackClients` (`stack_clients.dfy`, `bad_stack_clients.dfy`)
  are callers. They replay the scenarios of each crate's test module and prove the general
  properties behind them, using only the stacks' contracts.

Both stacks are classes over heap nodes. Each stack keeps a ghost sequence `nodes` of its
nodes, head first. `Chain(head, nodes)` is the object invariant `Valid()`. It says that each
node's `next` is the following node and that the last node's `next` is empty.
`ChainAcyclic` derives from that alone that no node occurs twice. So the chain is finite and
acyclic, and every node has a single owner. `ChainDeterminedByLink` shows that the real
pointers determine `nodes`. The abstract value `Contents()` is the sequence of the nodes'
elements, most recently pushed first. Because `Valid()` reads only the `next` fields, a
write through a `peek_mut` or `iter_mut` reference changes `Contents()` at exactly one
position and keeps the stack valid.

## Model

| member | source | states |
|---|---|---|
| `RefinedStack.ChainAcyclic` | stack/src/lib.rs:1-10 | In a chain of `next` links ending in `None`, no node occurs twice: the chain is acyclic and each node has one owner |
| `RefinedStack.ChainDeterminedByLink` | stack/src/lib.rs:1-10 | Two node sequences that both follow the `next` links from the same head are equal, so the ghost chain is fixed by the real links |
| `RefinedStack.Stack.constructor` | stack/src/lib.rs:13-15 | `new` gives a valid stack with head `None` and no elements |
| `RefinedStack.Stack.Push` | stack/src/lib.rs:17-24 | After `push(x)` the contents are `x` followed by the old contents, unchanged; the new head node is freshly allocated and owns the old chain |
| `RefinedStack.Stack.Pop` | stack/src/lib.rs:26-31 | On an empty stack `pop` returns `None` and the stack stays empty; otherwise it returns the head element and exactly the old tail remains |
| `RefinedStack.Stack.Peek` | stack/src/lib.rs:33-35 | `peek` is `None` exactly when the stack is empty, and otherwise the head element (the one `pop` would return); it modifies nothing |
| `RefinedStack.Stack.PeekMut` | stack/src/lib.rs:37-39 | `peek_mut` is `None` exactly when the stack is empty, and otherwise a reference to the head node holding the head element |
| `RefinedStack.Stack.Iter` | stack/src/lib.rs:43-47 | `iter` gives a new valid cursor whose remaining elements are the stack's contents, head first |
| `RefinedStack.Stack.IterMut` | stack/src/lib.rs:49-53 | `iter_mut` gives a new valid cursor whose remaining nodes are the stack's nodes, head first |
| `RefinedStack.Stack.Drop` | stack/src/lib.rs:56-63 | The teardown loop terminates, leaves the head `None`, and every former node has its `next` cleared |
| `RefinedStack.Iter.Next` | stack/src/lib.rs:70-78 | `next` yields the first remaining element and moves past it; once nothing remains it yields `None` and the cursor stays exhausted |
| `RefinedStack.IterMut.Next` | stack/src/lib.rs:85-94 | `next` yields a reference to the first remaining node, holding the first remaining element, and moves past it; at the end it yields `None` |
| `RefinedStackClients.PushThenPopAll` | stack/src/lib.rs:105-119 | Pushing any sequence and then popping as often gives it back in reverse order, and one more pop gives `None` |
| `RefinedStackClients.CollectIter` | stack/src/lib.rs:132-138 | Driving `iter` until `None` yields exactly the contents, head to tail, and changes nothing |
| `RefinedStackClients.WriteThroughPeekMut` | stack/src/lib.rs:121-126 | Writing `v` through `peek_mut` replaces the head element and nothing else; on an empty stack nothing changes |
| `RefinedStackClients.FillThroughIterMut` | stack/src/lib.rs:81-94 | Writing `v` through each reference `iter_mut` yields sets every element to `v` and keeps the chain and its length |
| `RefinedStackClients.LifoScenario` | stack/src/lib.rs:100-119 | The test's observations: `None`, then peek/pop 3, 2, 1 in pairs, then `None` twice |
| `RefinedStackClients.PeekMutScenario` | stack/src/lib.rs:121-130 | The test's observations: `peek_mut` sees 3; after writing 4, `peek` and `pop` give 4; the next `pop` gives `None` |
| `RefinedStackClients.IterScenario` | stack/src/lib.rs:132-142 | The test's observations: `iter` yields 4, 5, `None`; after pushing 6, `iter_mut` first yields a reference to 6 |
| `BadStack.ChainAcyclic` | bad-stack/src/lib.rs:7-15 | In a chain of `More` links ending in `Empty`, no node occurs twice |
| `BadStack.ChainDeterminedByLink` | bad-stack/src/lib.rs:7-15 | Two node sequences that both follow the links from the same head link are equal |
| `BadStack.Stack.constructor` | bad-stack/src/lib.rs:21-23 | `new` gives a valid stack whose head is `Link::Empty` and which has no elements |
| `BadStack.Stack.Push` | bad-stack/src/lib.rs:27-34 | `push(x)` installs a fresh node holding `x` whose `next` is the old head link; the head becomes `More` of it, and the contents are `x` then the old contents |
| `BadStack.Stack.Pop` | bad-stack/src/lib.rs:38-46 | On `Empty`, `pop` returns `None` and the head stays `Empty`; on `More(node)` it returns the head element, promotes `node.next` to head, and the contents lose exactly their first element |
| `BadStack.Stack.Drop` | bad-stack/src/lib.rs:53-59 | The teardown loop terminates, leaves the head `Empty`, and every former node's `next` is `Empty` |
| `BadStackClients.PushThenPopAll` | bad-stack/src/lib.rs:71-78 | Pushing any sequence and then popping as often gives it back in reverse order, and one more pop gives `None` |
| `BadStackClients.LifoScenario` | bad-stack/src/lib.rs:66-79 | The test's observations: `None`, then 3, 2, 1, then `None` |

## Left out

- Borrowing and lifetimes are not modelled. Rust checks at compile time that nothing mutates the stack while an `Iter`, `IterMut`, `peek` or `peek_mut` reference is alive, and that `IterMut` hands out each element's exclusive reference only once. The model does not enforce this: a cursor's contract holds only as long as the nodes it walks are not relinked.
- `RefinedStack.Stack.Peek` and `RefinedStack.Iter.Next`: the `&T` they return is modelled as a copy of the element. Copying is the same as reading through a shared reference that no one may write through while it lives.
- `RefinedStack.Stack.PeekMut` and `RefinedStack.IterMut.Next`: the `&mut T` they return is modelled as the node that holds the element. A caller writes through it by assigning the node's `elem`. The model does not stop a caller from also reaching the node's `next`, which Rust's reference to the element alone does not allow.
- `Box` allocation and the release of memory are not modelled. The teardown loops only detach the nodes. The bound on call-stack depth that motivates the loops cannot be stated; termination and the final state are proved instead.
- `Drop::drop` runs automatically when a Rust stack goes out of scope. Here it is an explicit method that leaves a valid, empty stack.
- The `Clone + Copy` bound on the earlier stack's element type has no effect on behaviour, so the element type is unconstrained.
- The `#[cfg(test)]` test functions are not modelled as tests. Their scenarios are the `*Scenario` methods.
