/** `Flatten2D` (common/flatten.go): the layers of a two-dimensional slice laid
    end to end. */
module Flatten {

  /** The layers concatenated in order, the reference the loop is checked against. */
  function Concat<T>(values: seq<seq<T>>): seq<T> {
    if values == [] then [] else values[0] + Concat(values[1..])
  }

  /** The total number of elements in all layers. */
  function TotalLength<T>(values: seq<seq<T>>): nat {
    if values == [] then 0 else |values[0]| + TotalLength(values[1..])
  }

  lemma {:induction false} ConcatAppend<T>(a: seq<seq<T>>, b: seq<seq<T>>)
    ensures Concat(a + b) == Concat(a) + Concat(b)
    decreases |a|
  {
    if a == [] {
      assert a + b == b;
    } else {
      assert (a + b)[1..] == a[1..] + b;
      ConcatAppend(a[1..], b);
    }
  }

  /** The flattened sequence is as long as all layers together. */
  lemma {:induction false} ConcatLength<T>(values: seq<seq<T>>)
    ensures |Concat(values)| == TotalLength(values)
    decreases |values|
  {
    if values != [] {
      ConcatLength(values[1..]);
    }
  }

  /** Element `j` of layer `i` lands at position `j` past all earlier layers. */
  lemma {:induction false} ConcatIndex<T>(values: seq<seq<T>>, i: nat, j: nat)
    requires i < |values| && j < |values[i]|
    ensures TotalLength(values[..i]) + j < |Concat(values)|
    ensures Concat(values)[TotalLength(values[..i]) + j] == values[i][j]
    decreases i
  {
    ConcatLength(values);
    if i == 0 {
      assert values[..0] == [];
    } else {
      assert values[..i][1..] == values[1..][..i - 1];
      ConcatIndex(values[1..], i - 1, j);
      ConcatLength(values[..i]);
    }
  }

  /** `Flatten2D`: copies the layers one after another into a fresh slice. The
      empty input gives the empty output and a single layer flattens to itself. */
  method Flatten2D<T>(values: seq<seq<T>>) returns (ans: seq<T>)
    ensures ans == Concat(values)
    ensures |ans| == TotalLength(values)
    ensures values == [] ==> ans == []
    ensures |values| == 1 ==> ans == values[0]
  {
    ans := [];
    var k := 0;
    while k < |values|
      invariant 0 <= k <= |values|
      invariant ans == Concat(values[..k])
    {
      var layer := values[k];
      ConcatAppend(values[..k], [layer]);
      assert values[..k + 1] == values[..k] + [layer];
      assert Concat([layer]) == layer + Concat([layer][1..]);
      ans := ans + layer;
      k := k + 1;
    }
    assert values[..k] == values;
    ConcatLength(values);
  }
}
