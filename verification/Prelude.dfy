/** The absent-or-present result of a lookup, and small facts about sets. */
module Prelude {
  datatype Option<+T> = None | Some(value: T)

  /** A write the schema may refuse, leaving everything as it was. */
  datatype Result<+T> = Ok(value: T) | Refused

  function Max(a: int, b: int): int {
    if a < b then b else a
  }

  predicate Increasing(xs: seq<int>) {
    forall i, j :: 0 <= i < j < |xs| ==> xs[i] < xs[j]
  }

  predicate InRange(t: int, from: int, to: int) {
    from <= t < to
  }

  /** The integers from `from` on, before `to`. */
  function Range(from: int, to: int): set<int> {
    set t | from <= t < to && InRange(t, from, to)
  }

  /** An element of a set that has some. */
  lemma Pick(s: set<int>) returns (x: int)
    requires s != {}
    ensures x in s
  {
    assert exists y :: y in s by {
      if forall y :: y !in s {}
    }
    x :| x in s;
  }

  lemma {:induction false} Largest(s: set<int>) returns (x: int)
    requires s != {}
    ensures x in s && forall y <- s :: y <= x
    decreases |s|
  {
    x := Pick(s);
    assert forall y <- s :: y == x || y in s - {x};
    if s - {x} != {} {
      var rest := Largest(s - {x});
      x := if rest < x then x else rest;
    }
  }

  lemma SomeIsLargest(s: set<int>)
    requires s != {}
    ensures exists x :: x in s && forall y <- s :: y <= x
  {
    var x := Largest(s);
  }

  /** The largest element of a set that has some. */
  function Greatest(s: set<int>): (x: int)
    requires s != {}
    ensures x in s && forall y <- s :: y <= x
  {
    SomeIsLargest(s);
    var x :| x in s && forall y <- s :: y <= x;
    x
  }

  lemma SubsetSize(a: set<int>, b: set<int>)
    requires a <= b
    ensures |a| <= |b|
  {
    assert b == a + (b - a);
  }

  /** Two maps that agree everywhere are the same. */
  lemma SameMap<T>(a: map<int, T>, b: map<int, T>)
    requires a.Keys == b.Keys
    requires forall k <- a :: a[k] == b[k]
    ensures a == b
  {
    forall k <- a ensures k in b && a[k] == b[k] {
      assert k in a.Keys && k in b.Keys;
    }
    forall k <- b ensures k in a {
      assert k in a.Keys && k in b.Keys;
    }
    assert a == b;
  }
}
