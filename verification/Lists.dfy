/** Linked lists as sequences: unlinking an element, and lists that hold nothing twice. */
module Lists {

  /** The list after unlinking the first occurrence of `x`. */
  function Without(list: seq<int>, x: int): seq<int>
    decreases |list|
  {
    if list == [] then []
    else if list[0] == x then list[1..]
    else [list[0]] + Without(list[1..], x)
  }

  predicate NoRepeat(list: seq<int>)
    decreases |list|
  {
    list == [] || (list[0] !in list[1..] && NoRepeat(list[1..]))
  }

  lemma {:induction false} WithoutAbsent(list: seq<int>, x: int)
    requires x !in list
    ensures Without(list, x) == list
    decreases |list|
  {
    if list != [] { WithoutAbsent(list[1..], x); }
  }

  /** Unlinking from a list without repetitions removes exactly that element. */
  lemma {:induction false} WithoutMembers(list: seq<int>, x: int)
    requires NoRepeat(list)
    ensures NoRepeat(Without(list, x))
    ensures forall y {:trigger y in Without(list, x)} :: y in Without(list, x) <==> y in list && y != x
    ensures x in list ==> |Without(list, x)| == |list| - 1
    decreases |list|
  {
    if list != [] {
      var rest := list[1..];
      WithoutMembers(rest, x);
      assert forall y :: y in list <==> y == list[0] || y in rest;
      if list[0] != x { assert Without(list, x)[1..] == Without(rest, x); }
    }
  }

  lemma {:induction false} WithoutMiddle(a: seq<int>, x: int, b: seq<int>)
    requires x !in a
    ensures Without(a + [x] + b, x) == a + b
    decreases |a|
  {
    if a == [] {
      assert a + [x] + b == [x] + b && a + b == b;
    } else {
      WithoutMiddle(a[1..], x, b);
      assert (a + [x] + b)[1..] == a[1..] + [x] + b;
    }
  }

  lemma PushNoRepeat(x: int, list: seq<int>)
    requires NoRepeat(list) && x !in list
    ensures NoRepeat([x] + list)
  {
    assert ([x] + list)[1..] == list;
  }

  /** At most `n` different numbers lie below `n`. */
  lemma {:induction false} Pigeonhole(list: seq<int>, n: nat)
    requires NoRepeat(list) && forall x {:trigger x in list} :: x in list ==> 0 <= x < n
    ensures |list| <= n
    decreases n
  {
    if list != [] {
      var x := list[0];
      assert x in list;
      assert 0 <= x < n;
      WithoutMembers(list, n - 1);
      WithoutShorter(list, n - 1);
      Pigeonhole(Without(list, n - 1), n - 1);
    }
  }

  lemma {:induction false} WithoutShorter(list: seq<int>, x: int)
    ensures |list| - 1 <= |Without(list, x)| <= |list|
    decreases |list|
  {
    if list != [] { WithoutShorter(list[1..], x); }
  }
}
