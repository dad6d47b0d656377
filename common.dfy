/** Values shared by both stack variants: Rust's `Option`, and the reversal of a sequence
    that states the order in which a stack gives back what was pushed onto it. */
module Common {

  /** Rust's `Option<T>`: the result of `pop`, `peek` and an iterator step. */
  datatype Option<T> = None | Some(value: T)

  /** The elements of `s`, last one first. */
  function Reversed<T>(s: seq<T>): (r: seq<T>)
    ensures |r| == |s|
    ensures s != [] ==> r[0] == s[|s| - 1]
  {
    if s == [] then [] else Reversed(s[1..]) + [s[0]]
  }

  /** Appending `x` to `s` puts `x` at the front of its reversal. */
  lemma {:induction false} ReversedAppend<T>(s: seq<T>, x: T)
    ensures Reversed(s + [x]) == [x] + Reversed(s)
  {
    if s == [] {
      assert Reversed([x]) == Reversed([]) + [x];
    } else {
      assert (s + [x])[1..] == s[1..] + [x];
      ReversedAppend(s[1..], x);
    }
  }
}
