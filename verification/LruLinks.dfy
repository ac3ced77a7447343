/**
 The doubly linked list behind the session order: slots of the pool linked by index, -1 for no slot.
 */
module LruLinks {
  import opened Lists

  // ----- links and the order they spell

  function Before(order: seq<int>, i: int): int
    requires 0 <= i < |order|
  {
    if i == 0 then -1 else order[i - 1]
  }

  function After(order: seq<int>, i: int): int
    requires 0 <= i < |order|
  {
    if i == |order| - 1 then -1 else order[i + 1]
  }

  function First(order: seq<int>): int { if order == [] then -1 else order[0] }

  function Last(order: seq<int>): int { if order == [] then -1 else order[|order| - 1] }

  predicate Distinct(order: seq<int>) {
    forall i, j {:trigger order[i], order[j]} :: 0 <= i < j < |order| ==> order[i] != order[j]
  }

  /** The slot at position `i` links to both neighbours. */
  predicate LinkAt(prev: seq<int>, next: seq<int>, order: seq<int>, i: int) {
    0 <= i < |order| && 0 <= order[i] < |prev| == |next| &&
    prev[order[i]] == Before(order, i) && next[order[i]] == After(order, i)
  }

  predicate LinkedUp(prev: seq<int>, next: seq<int>, order: seq<int>) {
    forall i {:trigger LinkAt(prev, next, order, i)} :: 0 <= i < |order| ==> LinkAt(prev, next, order, i)
  }

  predicate Loose(prev: seq<int>, next: seq<int>, order: seq<int>, s: int) {
    0 <= s < |prev| == |next| && s !in order ==> prev[s] == -1 && next[s] == -1
  }

  /** Slots outside the list, other than `hole`, have no links. */
  ghost predicate LooseOutside(prev: seq<int>, next: seq<int>, order: seq<int>, hole: int) {
    forall s {:trigger Loose(prev, next, order, s)} :: s != hole ==> Loose(prev, next, order, s)
  }

  function Cut(order: seq<int>, i: int): seq<int>
    requires 0 <= i < |order|
  {
    order[..i] + order[i + 1..]
  }

  lemma {:induction false} CutIsWithout(order: seq<int>, i: nat)
    requires Distinct(order) && i < |order|
    ensures Cut(order, i) == Without(order, order[i])
    decreases |order|
  {
    if i > 0 {
      CutIsWithout(order[1..], i - 1);
      assert order[1..][..i - 1] == order[1..i];
    }
  }

  lemma CutMembers(order: seq<int>, i: nat, x: int)
    requires Distinct(order) && i < |order|
    ensures x in Cut(order, i) <==> x in order && x != order[i]
  {
    var rest := Cut(order, i);
    if x in rest {
      var k :| 0 <= k < |rest| && rest[k] == x;
      assert x == order[if k < i then k else k + 1];
    }
    if x in order && x != order[i] {
      var k :| 0 <= k < |order| && order[k] == x;
      assert x == rest[if k < i then k else k - 1];
    }
  }

  /** The links after the neighbours of position `i` have been joined. */
  function JoinNext(next: seq<int>, order: seq<int>, i: int): seq<int>
    requires 0 <= i < |order| && (i > 0 ==> 0 <= order[i - 1] < |next|)
  {
    if i == 0 then next else next[order[i - 1] := After(order, i)]
  }

  function JoinPrev(prev: seq<int>, order: seq<int>, i: int): seq<int>
    requires 0 <= i < |order| && (i < |order| - 1 ==> 0 <= order[i + 1] < |prev|)
  {
    if i == |order| - 1 then prev else prev[order[i + 1] := Before(order, i)]
  }

  lemma JoinAt(prev: seq<int>, next: seq<int>, order: seq<int>, i: nat, k: nat)
    requires LinkedUp(prev, next, order) && Distinct(order) && i < |order| && k < |order| - 1
    requires (i > 0 ==> 0 <= order[i - 1] < |next|) && (i < |order| - 1 ==> 0 <= order[i + 1] < |prev|)
    ensures LinkAt(JoinPrev(prev, order, i), JoinNext(next, order, i), Cut(order, i), k)
  {
    var rest := Cut(order, i);
    var m := if k < i then k else k + 1;
    assert rest[k] == order[m];
    assert LinkAt(prev, next, order, m);
    assert k > 0 ==> rest[k - 1] == order[if k - 1 < i then k - 1 else k];
    assert k < |rest| - 1 ==> rest[k + 1] == order[if k + 1 < i then k + 1 else k + 2];
  }

  /** Joining the neighbours of a slot leaves the list without it. */
  lemma JoinKeeps(prev: seq<int>, next: seq<int>, order: seq<int>, i: nat)
    requires LinkedUp(prev, next, order) && LooseOutside(prev, next, order, -1)
    requires Distinct(order) && i < |order|
    requires (i > 0 ==> 0 <= order[i - 1] < |next|) && (i < |order| - 1 ==> 0 <= order[i + 1] < |prev|)
    ensures LinkedUp(JoinPrev(prev, order, i), JoinNext(next, order, i), Cut(order, i))
    ensures LooseOutside(JoinPrev(prev, order, i), JoinNext(next, order, i), Cut(order, i), order[i])
  {
    var prev', next', rest := JoinPrev(prev, order, i), JoinNext(next, order, i), Cut(order, i);
    forall k | 0 <= k < |rest| ensures LinkAt(prev', next', rest, k) {
      JoinAt(prev, next, order, i, k);
    }
    forall s | s != order[i] ensures Loose(prev', next', rest, s) {
      CutMembers(order, i, s);
      assert Loose(prev, next, order, s);
    }
  }

  function PushNext(next: seq<int>, order: seq<int>, s: int): seq<int>
    requires 0 <= s < |next|
  {
    next[s := First(order)]
  }

  function PushPrev(prev: seq<int>, order: seq<int>, s: int): seq<int>
    requires 0 <= s < |prev| && (order != [] ==> 0 <= order[0] < |prev|)
  {
    if order == [] then prev[s := -1] else prev[s := -1][order[0] := s]
  }

  /** A loose slot linked in front of the head. */
  lemma PushKeeps(prev: seq<int>, next: seq<int>, order: seq<int>, s: int)
    requires LinkedUp(prev, next, order) && LooseOutside(prev, next, order, s)
    requires Distinct(order) && 0 <= s < |prev| == |next| && s !in order
    requires order != [] ==> 0 <= order[0] < |prev|
    ensures LinkedUp(PushPrev(prev, order, s), PushNext(next, order, s), [s] + order)
    ensures LooseOutside(PushPrev(prev, order, s), PushNext(next, order, s), [s] + order, -1)
  {
    var prev', next', longer := PushPrev(prev, order, s), PushNext(next, order, s), [s] + order;
    forall k | 0 <= k < |longer| ensures LinkAt(prev', next', longer, k) {
      if k > 0 {
        assert longer[k] == order[k - 1];
        assert LinkAt(prev, next, order, k - 1);
        assert order[k - 1] in order;
        assert k > 1 ==> order[k - 1] != order[0];
      }
    }
    forall x | x != -1 ensures Loose(prev', next', longer, x) {
      assert x in longer <==> x == s || x in order;
      assert x != s ==> Loose(prev, next, order, x);
      assert order != [] ==> order[0] in order;
    }
  }
}
