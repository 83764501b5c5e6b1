/** structures/linked-list.go, `LinkedList`: a singly linked list behind a dummy
    head node, seen as the sequence of values after the head. Values are
    compared with the integer comparator: `compare(a, v) == 0` is `a == v`. */
module LinkedLists {
  import opened Options
  import opened Order

  datatype LinkedList = LinkedList(vals: seq<int>)

  /** The position of the first value equal to `v`, or none. */
  function FirstMatch(s: seq<int>, v: int): (k: Option<nat>)
    ensures k.None? <==> v !in s
    ensures k.Some? ==> k.value < |s| && s[k.value] == v && v !in s[..k.value]
    decreases |s|
  {
    if s == [] then None
    else if s[0] == v then Some(0)
    else
      var k := FirstMatch(s[1..], v);
      if k.None? then None
      else
        assert s[..k.value + 1] == [s[0]] + s[1..][..k.value];
        Some(k.value + 1)
  }

  /** `NewLinkedList`: only the dummy head. */
  function NewLinkedList(): (l: LinkedList)
    ensures l.vals == []
  {
    LinkedList([])
  }

  /** `Search`: walks from the head and returns the first node whose value
      compares equal, nil when the walk reaches the end. The node is given by
      its position. */
  method Search(l: LinkedList, v: int) returns (r: Option<nat>)
    ensures r == FirstMatch(l.vals, v)
    ensures r.Some? ==> l.vals[r.value] == v
    ensures r.None? <==> v !in l.vals
  {
    var i := 0;
    while i < |l.vals|
      invariant 0 <= i <= |l.vals|
      invariant v !in l.vals[..i]
    {
      if Compare(l.vals[i], v) == 0 {
        FirstMatchAt(l.vals, v, i);
        return Some(i);
      }
      assert l.vals[..i + 1] == l.vals[..i] + [l.vals[i]];
      i := i + 1;
    }
    assert l.vals[..i] == l.vals;
    return None;
  }

  /** A matching position with no match before it is the first match. */
  lemma FirstMatchAt(s: seq<int>, v: int, i: nat)
    requires i < |s| && s[i] == v && v !in s[..i]
    ensures FirstMatch(s, v) == Some(i)
  {
  }

  /** `Insert`: a new node right after the head, so `v` is the first value. */
  function Insert(l: LinkedList, v: int): (r: LinkedList)
    ensures |r.vals| == |l.vals| + 1 && r.vals[0] == v && r.vals[1..] == l.vals
    ensures FirstMatch(r.vals, v) == Some(0)
  {
    LinkedList([v] + l.vals)
  }

  /** `Delete` as written: only the first node is compared. If it matches it is
      unlinked and returned; otherwise nil is returned and the list is
      unchanged, even when a later node matches. */
  function DeleteAsWritten(l: LinkedList, v: int): (res: (LinkedList, Option<int>))
    ensures res.1.Some? <==> l.vals != [] && l.vals[0] == v
    ensures res.1.Some? ==> res.1 == Some(v) && l.vals == [v] + res.0.vals
    ensures res.1.None? ==> res.0 == l
  {
    if l.vals != [] && Compare(l.vals[0], v) == 0 then (LinkedList(l.vals[1..]), Some(l.vals[0]))
    else (l, None)
  }

  /** The list `[1, 2]` still holds 2, yet `Delete(2)` returns nil and leaves it
      as it is. */
  lemma DeleteAsWrittenMissesLaterNode()
    ensures 2 in LinkedList([1, 2]).vals
    ensures DeleteAsWritten(LinkedList([1, 2]), 2) == (LinkedList([1, 2]), None)
  {
    assert LinkedList([1, 2]).vals[1] == 2;
  }

  /** `Delete` as its comment describes it: the first node whose value compares
      equal is unlinked and returned; nil, with the list unchanged, when no node
      matches. */
  function Delete(l: LinkedList, v: int): (res: (LinkedList, Option<int>))
    ensures res.1.None? <==> v !in l.vals
    ensures res.1.None? ==> res.0 == l
    ensures res.1.Some? ==> (res.1 == Some(v) &&
      res.0.vals == l.vals[..FirstMatch(l.vals, v).value] + l.vals[FirstMatch(l.vals, v).value + 1..])
    ensures multiset(res.0.vals) == multiset(l.vals) - (if v in l.vals then multiset{v} else multiset{})
  {
    match FirstMatch(l.vals, v)
    case None => (l, None)
    case Some(k) =>
      assert l.vals == l.vals[..k] + [v] + l.vals[k + 1..];
      (LinkedList(l.vals[..k] + l.vals[k + 1..]), Some(v))
  }

  /** The two agree whenever the value is first or absent, which covers a
      deletion of each value in turn from the front. */
  lemma DeleteAgreesAtFront(l: LinkedList, v: int)
    requires v !in l.vals || l.vals[0] == v
    ensures DeleteAsWritten(l, v) == Delete(l, v)
  {
    if v in l.vals {
      assert FirstMatch(l.vals, v) == Some(0);
      assert l.vals[..0] + l.vals[1..] == l.vals[1..];
    }
  }

  /** `Delete` undoes `Insert`. */
  lemma DeleteInsert(l: LinkedList, v: int)
    ensures Delete(Insert(l, v), v) == (l, Some(v))
  {
    assert Insert(l, v).vals[..0] + Insert(l, v).vals[1..] == l.vals;
  }
}
