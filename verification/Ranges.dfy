/** Sets of consecutive numbers, and when a part of one is all of it. */
module Ranges {

  ghost function Range(start: int, n: nat): (s: set<int>)
    ensures forall a :: a in s <==> start <= a < start + n
    ensures |s| == n
  {
    if n == 0 then {} else Range(start, n - 1) + {start + n - 1}
  }

  lemma PartOfRange(s: set<int>, start: int, n: nat)
    requires forall a :: a in s ==> start <= a < start + n
    ensures |s| <= n
    ensures |s| == n <==> forall a :: start <= a < start + n ==> a in s
  {
    var all := Range(start, n);
    assert all == s + (all - s);
    if |s| == n {
      assert all - s == {};
    }
    if forall a :: start <= a < start + n ==> a in s {
      assert s == all;
    }
  }
}
