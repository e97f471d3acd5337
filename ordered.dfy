/**
 * Ascending enumeration of finite integer sets: the iteration order of a
 * `std::set<int>` and of the keys of a `std::map<int, _>`, on which every
 * loop of the order book relies.
 */
module Ordered {

  /** `s` is strictly increasing, hence also free of duplicates. */
  predicate StrictlyIncreasing(s: seq<int>) {
    forall i, j :: 0 <= i < j < |s| ==> s[i] < s[j]
  }

  /** Below a member `y` of `s` there is a least element of `s`. */
  lemma {:induction false} LeastExists(s: set<int>, y: int)
    requires y in s
    ensures exists m :: m in s && forall x :: x in s ==> m <= x
    decreases s
  {
    if exists x :: x in s && x < y {
      var x :| x in s && x < y;
      var rest := s - {y};
      LeastExists(rest, x);
      var m :| m in rest && forall z :: z in rest ==> m <= z;
      forall z | z in s
        ensures m <= z
      {
        if z != y {
          assert z in rest;
        }
      }
    } else {
      assert forall z :: z in s ==> y <= z;
    }
  }

  /** A set without members is the empty set. */
  lemma NoMemberIsEmpty(s: set<int>)
    ensures (forall y :: y !in s) ==> s == {}
  {
    if forall y :: y !in s {
      assert forall y :: y in s <==> y in {};
    }
  }

  lemma LeastOfNonEmpty(s: set<int>)
    requires s != {}
    ensures exists m :: m in s && forall x :: x in s ==> m <= x
  {
    NoMemberIsEmpty(s);
    var y :| y in s;
    LeastExists(s, y);
  }

  /** The least element of a non-empty set: what `begin()` designates. */
  function Least(s: set<int>): (m: int)
    requires s != {}
    ensures m in s
    ensures forall x :: x in s ==> m <= x
  {
    LeastOfNonEmpty(s);
    var m :| m in s && forall x :: x in s ==> m <= x;
    m
  }

  /** The elements of `s` in the order a `std::set<int>` iterates them. */
  function Ascending(s: set<int>): (r: seq<int>)
    ensures |r| == |s|
    ensures forall x :: x in r <==> x in s
    ensures StrictlyIncreasing(r)
    decreases |s|
  {
    if s == {} then []
    else
      var m := Least(s);
      [m] + Ascending(s - {m})
  }
}
