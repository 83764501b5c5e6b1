/** structures/queue.go: a first-in first-out queue, a slice of values with a
    separate `length` counter that every operation keeps equal to the number
    of values stored. */
module Queues {
  import opened Options

  datatype Queue<T> = Queue(items: seq<T>, length: int)

  /** The counter matches the contents; the constructors establish it and
      every operation keeps it. */
  predicate Valid<T>(q: Queue<T>) {
    q.length == |q.items|
  }

  /** `NewQueue`: no values. */
  function NewQueue<T>(): (q: Queue<T>)
    ensures Valid(q) && q.items == []
  {
    Queue([], 0)
  }

  /** `NewQueueWithValues`: the given values, the first in front. */
  function NewQueueWithValues<T>(values: seq<T>): (q: Queue<T>)
    ensures Valid(q) && q.items == values
  {
    Queue(values, |values|)
  }

  /** `Length`: the counter, which is the number of values. */
  function Length<T>(q: Queue<T>): (n: int)
    ensures Valid(q) ==> n == |q.items|
  {
    q.length
  }

  /** `IsEmpty`: no values stored. */
  function IsEmpty<T>(q: Queue<T>): (b: bool)
    ensures Valid(q) ==> (b <==> q.items == [])
  {
    q.length == 0
  }

  /** `Add`: the value joins the back; the counter follows. */
  function Add<T>(q: Queue<T>, v: T): (r: Queue<T>)
    ensures r.items == q.items + [v]
    ensures Valid(q) ==> Valid(r) && Length(r) == Length(q) + 1
  {
    Queue(q.items + [v], q.length + 1)
  }

  /** `Pop`: the front value leaves the queue and is returned; nil, with the
      queue unchanged, when it is empty. */
  function Pop<T>(q: Queue<T>): (res: (Queue<T>, Option<T>))
    requires Valid(q)
    ensures Valid(res.0)
    ensures q.items == [] ==> res == (q, None)
    ensures q.items != [] ==> res.1 == Some(q.items[0]) && q.items == [q.items[0]] + res.0.items
  {
    if q.length == 0 then (q, None)
    else (Queue(q.items[1..], q.length - 1), Some(q.items[0]))
  }

  /** `Reset`: empty again. */
  function Reset<T>(q: Queue<T>): (r: Queue<T>)
    ensures Valid(r) && r.items == [] && IsEmpty(r)
  {
    Queue([], 0)
  }

  /** `Copy`: a new slice of `length` cells receiving the values, so the same
      values in the same order. */
  function Copy<T>(q: Queue<T>): (r: Queue<T>)
    requires Valid(q)
    ensures Valid(r) && r.items == q.items && Length(r) == Length(q)
  {
    Queue(q.items[..q.length], q.length)
  }

  /** The values `Pop` returns, in order, until the queue is empty. */
  function Drain<T>(q: Queue<T>): (s: seq<T>)
    requires Valid(q)
    decreases |q.items|
  {
    var (rest, v) := Pop(q);
    match v
    case None => []
    case Some(x) => [x] + Drain(rest)
  }

  /** The values added one by one. */
  function AddAll<T>(q: Queue<T>, xs: seq<T>): (r: Queue<T>)
    decreases |xs|
  {
    if xs == [] then q else AddAll(Add(q, xs[0]), xs[1..])
  }

  /** Draining pops the values front first, in the order they are stored. */
  lemma {:induction false} DrainInOrder<T>(q: Queue<T>)
    requires Valid(q)
    ensures Drain(q) == q.items
    decreases |q.items|
  {
    if q.items != [] {
      DrainInOrder(Pop(q).0);
    }
  }

  lemma {:induction false} AddAllAppends<T>(q: Queue<T>, xs: seq<T>)
    requires Valid(q)
    ensures Valid(AddAll(q, xs)) && AddAll(q, xs).items == q.items + xs
    decreases |xs|
  {
    if xs != [] {
      AddAllAppends(Add(q, xs[0]), xs[1..]);
      assert q.items + [xs[0]] + xs[1..] == q.items + xs;
    }
  }

  /** First in, first out: values added to a queue come out after the ones it
      held, in the order they were added. */
  lemma Fifo<T>(q: Queue<T>, xs: seq<T>)
    requires Valid(q)
    ensures Valid(AddAll(q, xs)) && Drain(AddAll(q, xs)) == q.items + xs
  {
    AddAllAppends(q, xs);
    DrainInOrder(AddAll(q, xs));
  }
}
