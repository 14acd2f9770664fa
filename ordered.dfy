/** Ascending traversal of finite sets.
    The source walks `std::set` and `std::map` containers, which iterate in
    ascending order; taking the least remaining element models that order. */
module Ordered {

  /** Some element of a non-empty set, for code that does not depend on which. */
  method Pick<T>(s: set<T>) returns (y: T)
    requires s != {}
    ensures y in s
  {
    y :| y in s;
  }

  /** Some element of a non-empty set, for specifications and proofs. */
  ghost function Choose<T>(s: set<T>): (y: T)
    requires s != {}
    ensures y in s
  {
    var y :| y in s; y
  }

  predicate IsLeastInt(m: int, s: set<int>)
  {
    m in s && forall x | x in s :: m <= x
  }

  predicate IsLeastChar(m: char, s: set<char>)
  {
    m in s && forall x | x in s :: m <= x
  }

  lemma {:induction false} LeastIntExists(s: set<int>)
    requires s != {}
    ensures exists m :: IsLeastInt(m, s)
    decreases |s|
  {
    var y := Choose(s);
    if s == {y} {
      assert IsLeastInt(y, s);
    } else {
      var rest := s - {y};
      LeastIntExists(rest);
      var m :| IsLeastInt(m, rest);
      var least := if m < y then m else y;
      forall x | x in s
        ensures least <= x
      {
        if x != y {
          assert x in rest;
        }
      }
      assert IsLeastInt(least, s);
    }
  }

  lemma {:induction false} LeastCharExists(s: set<char>)
    requires s != {}
    ensures exists m :: IsLeastChar(m, s)
    decreases |s|
  {
    var y := Choose(s);
    if s == {y} {
      assert IsLeastChar(y, s);
    } else {
      var rest := s - {y};
      LeastCharExists(rest);
      var m :| IsLeastChar(m, rest);
      var least := if m < y then m else y;
      forall x | x in s
        ensures least <= x
      {
        if x != y {
          assert x in rest;
        }
      }
      assert IsLeastChar(least, s);
    }
  }

  /** A subset is no larger than its superset, and a proper subset is smaller. */
  lemma SubsetCardinality<T>(a: set<T>, b: set<T>)
    requires a <= b
    ensures |a| <= |b| && (a != b ==> |a| < |b|)
  {
    var d := b - a;
    assert b == a + d;
    assert a * d == {};
    if a != b {
      assert d != {};
    }
  }

  /** The least element of a non-empty set of ids (`*s.begin()` on a `std::set<int>`). */
  method LeastInt(s: set<int>) returns (m: int)
    requires s != {}
    ensures m in s && forall x | x in s :: m <= x
  {
    LeastIntExists(s);
    m :| IsLeastInt(m, s);
  }

  /** The least symbol of a non-empty alphabet (`*s.begin()` on a `std::set<char>`). */
  method LeastChar(s: set<char>) returns (m: char)
    requires s != {}
    ensures m in s && forall x | x in s :: m <= x
  {
    LeastCharExists(s);
    m :| IsLeastChar(m, s);
  }

  /** The least element of a non-empty set of ids, for specifications. */
  ghost function Least(s: set<int>): (m: int)
    requires s != {}
    ensures m in s && forall x | x in s :: m <= x
  {
    LeastIntExists(s);
    var m :| IsLeastInt(m, s);
    m
  }
}
