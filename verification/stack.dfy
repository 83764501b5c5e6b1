/** structures/stack.go: a last-in first-out stack, a slice whose first element
    is the top. */
module Stacks {

  datatype Stack<T> = Stack(items: seq<T>)

  /** `NewStack`: no values. */
  function NewStack<T>(): (s: Stack<T>)
    ensures Len(s) == 0 && !HasNext(s)
  {
    Stack([])
  }

  /** `Len`: the number of values. */
  function Len<T>(s: Stack<T>): (n: nat)
    ensures n == 0 <==> s.items == []
  {
    |s.items|
  }

  /** `HasNext`: there is a value to pop. */
  function HasNext<T>(s: Stack<T>): (b: bool)
    ensures b <==> Len(s) != 0
  {
    |s.items| != 0
  }

  /** `Push`: the value becomes the top. */
  function Push<T>(s: Stack<T>, v: T): (r: Stack<T>)
    ensures Len(r) == Len(s) + 1 && r.items[0] == v && r.items[1..] == s.items
  {
    Stack([v] + s.items)
  }

  /** `Pop`: the top leaves the stack and is returned. An empty stack makes the
      slice index panic, so callers check `HasNext` first. */
  function Pop<T>(s: Stack<T>): (res: (Stack<T>, T))
    requires HasNext(s)
    ensures Len(res.0) == Len(s) - 1
    ensures s.items == [res.1] + res.0.items
  {
    (Stack(s.items[1..]), s.items[0])
  }

  /** `Reset`: empty again. */
  function Reset<T>(s: Stack<T>): (r: Stack<T>)
    ensures Len(r) == 0 && !HasNext(r)
  {
    Stack([])
  }

  /** `Copy`: a new slice of the same length filled position by position with
      copies of the values; with values compared by content, the same values
      in the same order. */
  method Copy<T>(s: Stack<T>) returns (r: Stack<T>)
    ensures Len(r) == Len(s)
    ensures forall i | 0 <= i < Len(s) :: r.items[i] == s.items[i]
  {
    var cpy: seq<T> := [];
    var i := 0;
    while i < |s.items|
      invariant 0 <= i <= |s.items|
      invariant cpy == s.items[..i]
    {
      cpy := cpy + [s.items[i]];
      i := i + 1;
    }
    r := Stack(cpy);
  }

  /** `Pop` undoes `Push`. */
  lemma PopPush<T>(s: Stack<T>, v: T)
    ensures HasNext(Push(s, v)) && Pop(Push(s, v)) == (s, v)
  {
    assert ([v] + s.items)[1..] == s.items;
  }

  /** The values `Pop` returns, in order, until the stack is empty. */
  function Drain<T>(s: Stack<T>): seq<T>
    decreases |s.items|
  {
    if !HasNext(s) then [] else var (rest, v) := Pop(s); [v] + Drain(rest)
  }

  /** The values pushed one by one. */
  function PushAll<T>(s: Stack<T>, xs: seq<T>): Stack<T>
    decreases |xs|
  {
    if xs == [] then s else PushAll(Push(s, xs[0]), xs[1..])
  }

  function Reverse<T>(xs: seq<T>): (r: seq<T>)
    ensures |r| == |xs| && forall i | 0 <= i < |xs| :: r[i] == xs[|xs| - 1 - i]
    decreases |xs|
  {
    if xs == [] then [] else Reverse(xs[1..]) + [xs[0]]
  }

  lemma {:induction false} PushAllPrepends<T>(s: Stack<T>, xs: seq<T>)
    ensures PushAll(s, xs).items == Reverse(xs) + s.items
    decreases |xs|
  {
    if xs != [] {
      PushAllPrepends(Push(s, xs[0]), xs[1..]);
      assert Reverse(xs) == Reverse(xs[1..]) + [xs[0]];
      Regroup(Reverse(xs[1..]), [xs[0]], s.items);
    }
  }

  lemma Regroup<T>(a: seq<T>, b: seq<T>, c: seq<T>)
    ensures a + (b + c) == (a + b) + c
  {
  }

  lemma {:induction false} DrainFromTop<T>(s: Stack<T>)
    ensures Drain(s) == s.items
    decreases |s.items|
  {
    if HasNext(s) {
      DrainFromTop(Pop(s).0);
    }
  }

  /** Last in, first out: values pushed onto a stack come out latest first,
      before the ones it held. */
  lemma Lifo<T>(s: Stack<T>, xs: seq<T>)
    ensures Drain(PushAll(s, xs)) == Reverse(xs) + s.items
  {
    PushAllPrepends(s, xs);
    DrainFromTop(PushAll(s, xs));
  }
}
