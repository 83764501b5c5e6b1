/** structures/binary-indexed-tree.go: a Fenwick tree over `values`, where user
    index `i` lives at cell `i + 1` and cell 0 is never written. Cell `t`
    holds the sum of the `lowbit(t)` user values that end at user index
    `t - 1`; `Update` adds to every cell covering the index, `Query` adds the
    cells of a prefix. The cells are `float64` in the Go code and `int` here:
    only additions and subtractions touch them. */
module BinaryIndexedTree {

  // ---------------------------------------------------------------------------
  // lowbit

  /** A power of two. */
  predicate IsPow2(n: nat)
    decreases n
  {
    n == 1 || (n >= 2 && n % 2 == 0 && IsPow2(n / 2))
  }

  /** `l` is a power of two that divides `t`. */
  predicate Pow2Divides(l: nat, t: int)
    decreases l
  {
    l == 1 || (l >= 2 && l % 2 == 0 && t % 2 == 0 && Pow2Divides(l / 2, t / 2))
  }

  /** `lowbit(x)`, `x & (-x)` on two's-complement integers: for a positive `x`
      the largest power of two that divides it. */
  function Lowbit(x: int): (r: nat)
    requires x > 0
    ensures IsPow2(r) && 1 <= r <= x
    ensures Pow2Divides(r, x) && !Pow2Divides(2 * r, x)
    decreases x
  {
    if x % 2 == 1 then 1
    else
      LowbitDouble(x, Lowbit(x / 2));
      2 * Lowbit(x / 2)
  }

  /** Doubling carries the lowbit of `x / 2` over to the even `x`. */
  lemma LowbitDouble(x: int, h: nat)
    requires x > 0 && x % 2 == 0
    requires IsPow2(h) && 1 <= h <= x / 2 && Pow2Divides(h, x / 2) && !Pow2Divides(2 * h, x / 2)
    ensures IsPow2(2 * h) && 2 * h <= x && Pow2Divides(2 * h, x) && !Pow2Divides(2 * (2 * h), x)
  {
    assert (2 * h) / 2 == h && (2 * (2 * h)) / 2 == 2 * h;
  }

  /** Just above a multiple `t` of a power of two `l`, the lowbit of `t + d`
      (for `0 < d < l`) is at most `d`: the cells between `t` and `t + l` do
      not reach back to `t`. */
  lemma {:induction false} LowbitBelow(t: int, l: nat, d: int)
    requires Pow2Divides(l, t) && t >= 0 && 0 < d < l
    ensures Lowbit(t + d) <= d
    decreases l
  {
    if d % 2 == 0 {
      LowbitBelow(t / 2, l / 2, d / 2);
      assert (t + d) / 2 == t / 2 + d / 2;
    }
  }

  /** The next cell of an update, `t + lowbit(t)`, has a strictly larger lowbit. */
  lemma {:induction false} LowbitGrows(t: int)
    requires t > 0
    ensures Lowbit(t + Lowbit(t)) >= 2 * Lowbit(t)
    decreases t
  {
    if t % 2 == 0 {
      LowbitGrows(t / 2);
      assert (t + Lowbit(t)) / 2 == t / 2 + Lowbit(t / 2);
    }
  }

  // ---------------------------------------------------------------------------
  // What the cells mean

  /** The sum of `a[lo..hi]`, zero for an empty or reversed range. */
  function Sum(a: seq<int>, lo: int, hi: int): int
    requires 0 <= lo && hi <= |a|
    decreases hi - lo
  {
    if hi <= lo then 0 else Sum(a, lo, hi - 1) + a[hi - 1]
  }

  lemma {:induction false} SumSplit(a: seq<int>, lo: int, mid: int, hi: int)
    requires 0 <= lo <= mid <= hi <= |a|
    ensures Sum(a, lo, hi) == Sum(a, lo, mid) + Sum(a, mid, hi)
    decreases hi - mid
  {
    if hi > mid {
      SumSplit(a, lo, mid, hi - 1);
    }
  }

  /** The user values after `Update(i, v)`: an index outside the tree is
      ignored, as the loop does not enter. */
  function Bump(a: seq<int>, i: int, v: int): (b: seq<int>)
    ensures |b| == |a|
    ensures forall k | 0 <= k < |a| :: b[k] == a[k] + (if k == i then v else 0)
  {
    if 0 <= i < |a| then a[i := a[i] + v] else a
  }

  lemma {:induction false} SumBump(a: seq<int>, i: int, v: int, lo: int, hi: int)
    requires 0 <= lo && hi <= |a|
    ensures Sum(Bump(a, i, v), lo, hi) == Sum(a, lo, hi) + (if lo <= i < hi then v else 0)
    decreases hi - lo
  {
    if hi > lo {
      SumBump(a, i, v, lo, hi - 1);
    }
  }

  /** Cell `t` covers the one-based position `p`. */
  predicate Covers(t: int, p: int)
    requires t > 0
  {
    t - Lowbit(t) < p <= t
  }

  /** The cells represent the user values `a`: one cell more than values, cell 0
      is zero, and cell `t` is the sum of the `lowbit(t)` values ending at user
      index `t - 1`. */
  predicate Valid(values: seq<int>, a: seq<int>) {
    |values| == |a| + 1 && values[0] == 0 &&
    forall t | 1 <= t < |values| :: values[t] == Sum(a, t - Lowbit(t), t)
  }

  // ---------------------------------------------------------------------------
  // Operations

  /** `NewBinaryIndexedTree(n)`: `n + 1` zero cells, representing `n` zeros. A
      negative `n` makes `make` panic. */
  function New(n: int): (values: seq<int>)
    requires n >= 0
    ensures |values| == n + 1 && Size(values) == n
    ensures forall t | 0 <= t < |values| :: values[t] == 0
    ensures Valid(values, seq(n, _ => 0))
  {
    var values := seq(n + 1, _ => 0);
    forall t | 1 <= t < |values|
      ensures values[t] == Sum(seq(n, _ => 0), t - Lowbit(t), t)
    {
      SumZero(n, t - Lowbit(t), t);
    }
    values
  }

  lemma {:induction false} SumZero(n: nat, lo: int, hi: int)
    requires 0 <= lo && hi <= n
    ensures Sum(seq(n, _ => 0), lo, hi) == 0
    decreases hi - lo
  {
    if hi > lo {
      SumZero(n, lo, hi - 1);
    }
  }

  /** `Size`: the number of user values. */
  function Size(values: seq<int>): (n: int)
    ensures forall a | Valid(values, a) :: n == |a|
  {
    |values| - 1
  }

  /** `Update(i, v)`: adds `v` to every cell that covers user index `i`, and
      to nothing else; cell 0 is never touched. An `i` at or beyond the size
      changes nothing. (With `i == -1` the loop would add to cell 0 forever,
      `lowbit(0)` being 0, and a smaller `i` indexes out of range.) */
  method Update(values: seq<int>, i: int, v: int) returns (r: seq<int>)
    requires i >= 0
    ensures |r| == |values|
    ensures forall t | 0 <= t < |values| :: r[t] == values[t] + (if t > 0 && Covers(t, i + 1) then v else 0)
    ensures |values| > 0 ==> r[0] == values[0]
    ensures forall a | Valid(values, a) :: Valid(r, Bump(a, i, v))
  {
    r := values;
    var t := i + 1;
    while t < |r|
      invariant t > i && t - Lowbit(t) <= i
      invariant AddedBelow(values, r, i, v, t)
      decreases |r| - t
    {
      var r' := r[t := r[t] + v];
      UpdateStep(values, r, i, v, t, r');
      r, t := r', t + Lowbit(t);
    }
    forall a | Valid(values, a)
      ensures Valid(r, Bump(a, i, v))
    {
      UpdateKeepsValid(values, a, i, v, r);
    }
  }

  /** The cells below `t` that cover index `i` have had `v` added; nothing
      else has changed. */
  predicate AddedBelow(values: seq<int>, r: seq<int>, i: int, v: int, t: int) {
    0 <= i && |r| == |values| &&
    forall u | 0 <= u < |r| :: r[u] == values[u] + (if i < u < t && u - Lowbit(u) <= i then v else 0)
  }

  /** One round of the update loop: cell `t` gets `v`, and the loop moves on
      to the next cell covering `i`. */
  lemma UpdateStep(values: seq<int>, r: seq<int>, i: int, v: int, t: int, r': seq<int>)
    requires t > i >= 0 && t - Lowbit(t) <= i && t < |r|
    requires AddedBelow(values, r, i, v, t) && r' == r[t := r[t] + v]
    ensures AddedBelow(values, r', i, v, t + Lowbit(t))
    ensures (t + Lowbit(t)) - Lowbit(t + Lowbit(t)) <= i
  {
    NextCover(t, i);
  }

  /** From a cell covering index `i`, the next cell of the update loop covers
      it too, and none of the cells in between does. */
  lemma NextCover(t: int, i: int)
    requires t > i >= 0 && t - Lowbit(t) <= i
    ensures forall u | t < u < t + Lowbit(t) :: u - Lowbit(u) > i
    ensures (t + Lowbit(t)) - Lowbit(t + Lowbit(t)) <= i
  {
    forall u | t < u < t + Lowbit(t)
      ensures u - Lowbit(u) > i
    {
      LowbitBelow(t, Lowbit(t), u - t);
    }
    LowbitGrows(t);
  }

  lemma UpdateKeepsValid(values: seq<int>, a: seq<int>, i: int, v: int, r: seq<int>)
    requires Valid(values, a) && |r| == |values|
    requires forall t | 0 <= t < |values| :: r[t] == values[t] + (if t > 0 && Covers(t, i + 1) then v else 0)
    ensures Valid(r, Bump(a, i, v))
  {
    forall t | 1 <= t < |r|
      ensures r[t] == Sum(Bump(a, i, v), t - Lowbit(t), t)
    {
      SumBump(a, i, v, t - Lowbit(t), t);
    }
  }

  /** `Query(i)`: the prefix sum of user indexes `0..i`; zero for `i == -1`
      (and any smaller `i`). An `i` at or beyond the size indexes out of
      range. */
  method Query(values: seq<int>, i: int) returns (ans: int)
    requires i + 1 < |values|
    ensures i < 0 ==> ans == 0
    ensures forall a | Valid(values, a) :: ans == Sum(a, 0, if i < 0 then 0 else i + 1)
  {
    ans := 0;
    var t := i + 1;
    while t > 0
      invariant t <= i + 1 && t < |values|
      invariant i < 0 ==> ans == 0 && t == i + 1
      invariant forall a | Valid(values, a) :: ans + Sum(a, 0, if t < 0 then 0 else t) == Sum(a, 0, if i < 0 then 0 else i + 1)
      decreases t
    {
      forall a | Valid(values, a)
        ensures Sum(a, 0, t) == Sum(a, 0, t - Lowbit(t)) + values[t]
      {
        SumSplit(a, 0, t - Lowbit(t), t);
      }
      ans := ans + values[t];
      t := t - Lowbit(t);
    }
  }

  /** `Range(i, j)`: `Query(j) - Query(i - 1)`, the sum of user indexes
      `i..j` when `0 <= i <= j + 1`. */
  method Range(values: seq<int>, i: int, j: int) returns (ans: int)
    requires j + 1 < |values| && i < |values|
    ensures forall a | Valid(values, a) && 0 <= i <= j + 1 :: ans == Sum(a, i, j + 1)
    ensures forall a | Valid(values, a) && i < 0 :: ans == Sum(a, 0, if j < 0 then 0 else j + 1)
  {
    var hi := Query(values, j);
    var lo := Query(values, i - 1);
    ans := hi - lo;
    forall a | Valid(values, a) && 0 <= i <= j + 1
      ensures ans == Sum(a, i, j + 1)
    {
      SumSplit(a, 0, i, j + 1);
    }
  }

  /** `Snapshot` and `Copy`: the cells as they are, which represent the same
      values. */
  function Snapshot(values: seq<int>): (r: seq<int>)
    ensures |r| == |values| && forall t | 0 <= t < |r| :: r[t] == values[t]
    ensures forall a | Valid(values, a) :: Valid(r, a)
  {
    values
  }

  // ---------------------------------------------------------------------------
  // Any sequence of updates

  /** The user values after applying the updates `(index, amount)` in turn to
      `n` zeros. */
  function Totals(n: nat, ups: seq<(int, int)>): (a: seq<int>)
    ensures |a| == n
    decreases |ups|
  {
    if ups == [] then seq(n, _ => 0)
    else Bump(Totals(n, ups[..|ups| - 1]), ups[|ups| - 1].0, ups[|ups| - 1].1)
  }

  /** The sum of the amounts of the updates at indexes `0..i`. */
  function UpdatesUpTo(ups: seq<(int, int)>, i: int): int
    decreases |ups|
  {
    if ups == [] then 0
    else UpdatesUpTo(ups[..|ups| - 1], i) + (if 0 <= ups[|ups| - 1].0 <= i then ups[|ups| - 1].1 else 0)
  }

  lemma {:induction false} TotalsPrefix(n: nat, ups: seq<(int, int)>, i: int)
    requires -1 <= i < n
    ensures Sum(Totals(n, ups), 0, i + 1) == UpdatesUpTo(ups, i)
    decreases |ups|
  {
    if ups == [] {
      SumZero(n, 0, i + 1);
    } else {
      var last := ups[|ups| - 1];
      TotalsPrefix(n, ups[..|ups| - 1], i);
      SumBump(Totals(n, ups[..|ups| - 1]), last.0, last.1, 0, i + 1);
    }
  }

  /** A new tree of size `n` after the updates in turn. */
  method Replay(n: int, ups: seq<(int, int)>) returns (values: seq<int>)
    requires n >= 0
    requires forall k | 0 <= k < |ups| :: ups[k].0 >= 0
    ensures Valid(values, Totals(n, ups))
  {
    values := New(n);
    var k := 0;
    while k < |ups|
      invariant 0 <= k <= |ups|
      invariant Valid(values, Totals(n, ups[..k]))
    {
      assert ups[..k + 1][..k] == ups[..k];
      values := Update(values, ups[k].0, ups[k].1);
      k := k + 1;
    }
    assert ups[..k] == ups;
  }

  /** After any sequence of updates on a new tree, `Query(i)` is the sum of
      the amounts of the updates at indexes up to `i`. */
  method QueryAfterUpdates(n: int, ups: seq<(int, int)>, i: int) returns (ans: int)
    requires n >= 0 && -1 <= i < n
    requires forall k | 0 <= k < |ups| :: ups[k].0 >= 0
    ensures ans == UpdatesUpTo(ups, i)
  {
    var values := Replay(n, ups);
    ans := Query(values, i);
    TotalsPrefix(n, ups, i);
  }
}
