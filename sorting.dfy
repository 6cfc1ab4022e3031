/**
 * Array.prototype.sort with a numeric comparator `(a, b) => key(a) - key(b)`: a stable
 * sort by an integer key. The application sorts prompts and media by `order` this way, and
 * newsletters by the negated publication time.
 */
module Sorting {
  predicate SortedBy<T>(s: seq<T>, key: T -> int)
  {
    forall i, j :: 0 <= i < j < |s| ==> key(s[i]) <= key(s[j])
  }

  /** Inserts x into sorted s after every element whose key is not larger than x's. */
  function InsertByKey<T>(x: T, s: seq<T>, key: T -> int): (r: seq<T>)
    requires SortedBy(s, key)
    ensures SortedBy(r, key)
    ensures multiset(r) == multiset(s) + multiset{x}
    ensures |r| == |s| + 1
    decreases |s|
  {
    if s == [] then [x]
    else if key(s[|s| - 1]) <= key(x) then s + [x]
    else
      var last := s[|s| - 1];
      var init := s[..|s| - 1];
      assert s == init + [last];
      var front := InsertByKey(x, init, key);
      assert forall i :: 0 <= i < |init| ==> key(init[i]) <= key(last) by {
        forall i | 0 <= i < |init|
          ensures key(init[i]) <= key(last)
        {
          assert init[i] == s[i];
        }
      }
      KeysBounded(front, init, x, key, key(last));
      front + [last]
  }

  /** A list holding the elements of b and x has keys bounded by whatever bounds theirs. */
  lemma KeysBounded<T>(a: seq<T>, b: seq<T>, x: T, key: T -> int, bound: int)
    requires multiset(a) == multiset(b) + multiset{x}
    requires key(x) <= bound && forall i :: 0 <= i < |b| ==> key(b[i]) <= bound
    ensures forall i :: 0 <= i < |a| ==> key(a[i]) <= bound
  {
    forall i | 0 <= i < |a|
      ensures key(a[i]) <= bound
    {
      assert a[i] in multiset(a);
      if a[i] != x {
        assert a[i] in multiset(b);
        var k :| 0 <= k < |b| && b[k] == a[i];
      }
    }
  }

  /** The elements of s in ascending key order; equal keys keep their order in s. */
  function SortByKey<T>(s: seq<T>, key: T -> int): (r: seq<T>)
    ensures SortedBy(r, key)
    ensures multiset(r) == multiset(s)
    ensures |r| == |s|
    decreases |s|
  {
    if s == [] then []
    else
      var init := s[..|s| - 1];
      assert s == init + [s[|s| - 1]];
      InsertByKey(s[|s| - 1], SortByKey(init, key), key)
  }

  /** Sorting keeps exactly the elements it was given. */
  lemma SortByKeyMembers<T>(s: seq<T>, key: T -> int)
    ensures forall x :: x in SortByKey(s, key) <==> x in s
  {
    var r := SortByKey(s, key);
    forall x
      ensures x in r <==> x in s
    {
      assert x in r <==> x in multiset(r);
      assert x in s <==> x in multiset(s);
    }
  }

}
