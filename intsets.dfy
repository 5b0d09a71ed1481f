/** Least and greatest elements of finite sets of integers, and the ascending
    enumeration of such a set (what iterating a `std::set<time_t>` or the keys
    of a `std::map<time_t, ...>` yields). */
module IntSets {

  predicate IsMin(m: int, s: set<int>) {
    m in s && forall x :: x in s ==> m <= x
  }

  predicate IsMax(m: int, s: set<int>) {
    m in s && forall x :: x in s ==> x <= m
  }

  /** Some element of a non-empty set. */
  lemma Pick(s: set<int>) returns (x: int)
    requires s != {}
    ensures x in s
  {
    if forall y :: y !in s {
      assert false;
    }
    x :| x in s;
  }

  lemma {:induction false} MinExists(s: set<int>)
    requires s != {}
    ensures exists m :: IsMin(m, s)
  {
    var x := Pick(s);
    var rest := s - {x};
    if rest == {} {
      assert s == {x};
      assert IsMin(x, s);
    } else {
      MinExists(rest);
      var m :| IsMin(m, rest);
      var least := if x < m then x else m;
      forall y | y in s
        ensures least <= y
      {
        if y != x {
          assert y in rest;
        }
      }
      assert IsMin(least, s);
    }
  }

  lemma {:induction false} MaxExists(s: set<int>)
    requires s != {}
    ensures exists m :: IsMax(m, s)
  {
    var x := Pick(s);
    var rest := s - {x};
    if rest == {} {
      assert s == {x};
      assert IsMax(x, s);
    } else {
      MaxExists(rest);
      var m :| IsMax(m, rest);
      var greatest := if x > m then x else m;
      forall y | y in s
        ensures y <= greatest
      {
        if y != x {
          assert y in rest;
        }
      }
      assert IsMax(greatest, s);
    }
  }

  /** The least element of a non-empty set. */
  function Min(s: set<int>): (m: int)
    requires s != {}
    ensures m in s && forall x :: x in s ==> m <= x
  {
    MinExists(s);
    var m :| IsMin(m, s); m
  }

  /** The greatest element of a non-empty set. */
  function Max(s: set<int>): (m: int)
    requires s != {}
    ensures m in s && forall x :: x in s ==> x <= m
  {
    MaxExists(s);
    var m :| IsMax(m, s); m
  }

  predicate StrictlyIncreasing(xs: seq<int>) {
    forall i, j :: 0 <= i < j < |xs| ==> xs[i] < xs[j]
  }

  /** The elements of `s` in ascending order, each exactly once. */
  function Sorted(s: set<int>): (xs: seq<int>)
    ensures |xs| == |s|
    ensures forall x :: x in s <==> x in xs
    ensures StrictlyIncreasing(xs)
    decreases |s|
  {
    if s == {} then []
    else
      var m := Min(s);
      var rest := s - {m};
      assert |rest| == |s| - 1;
      var tail := Sorted(rest);
      assert forall i :: 0 <= i < |tail| ==> m < tail[i];
      [m] + tail
  }
}
