/** Python's `list.sort()` on a list of integers, as insertion sort. */
module Sorting {

  predicate Sorted(s: seq<int>)
  {
    forall i, j :: 0 <= i < j < |s| ==> s[i] <= s[j]
  }

  /** Every element of a permutation of `u` plus `x` is at least any common
      lower bound of `u` and `x`. */
  lemma LowerBoundKept(lo: int, t: seq<int>, u: seq<int>, x: int)
    requires multiset(t) == multiset(u) + multiset{x}
    requires lo <= x && forall i :: 0 <= i < |u| ==> lo <= u[i]
    ensures forall j :: 0 <= j < |t| ==> lo <= t[j]
  {
    forall j | 0 <= j < |t|
      ensures lo <= t[j]
    {
      assert t[j] in multiset(t);
      if t[j] != x {
        assert t[j] in multiset(u);
        var i :| 0 <= i < |u| && u[i] == t[j];
      }
    }
  }

  /** Insert `x` into an ascending list, before the first larger element. */
  function Insert(x: int, s: seq<int>): (r: seq<int>)
    requires Sorted(s)
    ensures Sorted(r)
    ensures multiset(r) == multiset(s) + multiset{x}
  {
    if |s| == 0 then [x]
    else if x <= s[0] then [x] + s
    else
      var t := Insert(x, s[1..]);
      assert s == [s[0]] + s[1..];
      LowerBoundKept(s[0], t, s[1..], x);
      [s[0]] + t
  }

  /** The ascending rearrangement of `s`: sorted and a permutation of `s`. */
  function Sort(s: seq<int>): (r: seq<int>)
    ensures Sorted(r)
    ensures multiset(r) == multiset(s)
  {
    if |s| == 0 then []
    else
      assert s == s[..|s| - 1] + [s[|s| - 1]];
      Insert(s[|s| - 1], Sort(s[..|s| - 1]))
  }
}
