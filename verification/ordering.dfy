/** Orderings used to make the module's unordered query results deterministic. */
module Ordering {

  /** Some element of a non-empty set. */
  lemma PickFrom(s: set<int>) returns (x: int)
    requires s != {}
    ensures x in s
  {
    if forall e :: e !in s {
      assert false;
    }
    var e :| e in s;
    x := e;
  }

  /** Every non-empty finite set of integers has a least element. */
  lemma {:induction false} LeastExists(s: set<int>)
    requires s != {}
    ensures exists m :: m in s && forall x :: x in s ==> m <= x
  {
    var x := PickFrom(s);
    if s != {x} {
      LeastExists(s - {x});
      var m' :| m' in s - {x} && forall y :: y in s - {x} ==> m' <= y;
      var m := if x < m' then x else m';
      forall y | y in s
        ensures m <= y
      {
        if y != x {
          assert y in s - {x};
        }
      }
    } else {
      assert forall y :: y in s ==> x <= y;
    }
  }

  /** The least element of a non-empty set. */
  function Min(s: set<int>): (m: int)
    requires s != {}
    ensures m in s
    ensures forall x :: x in s ==> m <= x
  {
    LeastExists(s);
    var m :| m in s && forall x :: x in s ==> m <= x;
    m
  }

  /** The elements of a set in strictly ascending order. */
  function Sorted(s: set<int>): (r: seq<int>)
    ensures forall i, j :: 0 <= i < j < |r| ==> r[i] < r[j]
    ensures forall x :: x in r <==> x in s
    ensures |r| == |s|
    decreases |s|
  {
    if s == {} then []
    else
      var m := Min(s);
      [m] + Sorted(s - {m})
  }

  /** A number above every element of the set (and at least 1). */
  function Above(s: set<int>): (n: int)
    ensures n >= 1
    ensures forall x :: x in s ==> x < n
  {
    var r := Sorted(s);
    if r == [] then 1
    else if r[|r| - 1] + 1 < 1 then 1
    else r[|r| - 1] + 1
  }
}
