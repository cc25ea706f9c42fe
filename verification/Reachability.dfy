/** Paths in a graph given by its steps. */
module Reachability {

  ghost predicate IsPath<T(!new)>(step: (T, T) -> bool, p: seq<T>) {
    p != [] && forall i | 0 <= i < |p| - 1 :: step(p[i], p[i + 1])
  }

  ghost predicate PathFromTo<T(!new)>(step: (T, T) -> bool, p: seq<T>, a: T, b: T) {
    IsPath(step, p) && p[0] == a && p[|p| - 1] == b
  }

  ghost predicate Reaches<T(!new)>(step: (T, T) -> bool, a: T, b: T) {
    exists p :: PathFromTo(step, p, a, b)
  }

  lemma ReachesSelf<T(!new)>(step: (T, T) -> bool, a: T)
    ensures Reaches(step, a, a)
  {
    assert PathFromTo(step, [a], a, a);
  }

  lemma ReachesStep<T(!new)>(step: (T, T) -> bool, a: T, b: T, c: T)
    requires step(a, b) && Reaches(step, b, c)
    ensures Reaches(step, a, c)
  {
    var p :| PathFromTo(step, p, b, c);
    var q := [a] + p;
    forall i | 0 <= i < |q| - 1
      ensures step(q[i], q[i + 1])
    {
      assert i > 0 ==> q[i] == p[i - 1] && q[i + 1] == p[i];
    }
    assert PathFromTo(step, q, a, c);
  }

  lemma FirstStep<T(!new)>(step: (T, T) -> bool, a: T, c: T) returns (b: T)
    requires Reaches(step, a, c) && a != c
    ensures step(a, b) && Reaches(step, b, c)
  {
    var p :| PathFromTo(step, p, a, c);
    b := p[1];
    var q := p[1..];
    forall i | 0 <= i < |q| - 1
      ensures step(q[i], q[i + 1])
    {
      assert q[i] == p[i + 1] && q[i + 1] == p[i + 2];
    }
    assert PathFromTo(step, q, b, c);
  }

  /** A set that holds the start and is closed under steps holds everything reachable. */
  lemma {:induction false} ClosedPath<T(!new)>(step: (T, T) -> bool, closed: T -> bool, p: seq<T>)
    requires IsPath(step, p) && closed(p[0])
    requires forall x, y | closed(x) && step(x, y) :: closed(y)
    ensures closed(p[|p| - 1])
    decreases |p|
  {
    if |p| > 1 {
      var q := p[..|p| - 1];
      ClosedPath(step, closed, q);
      assert step(q[|q| - 1], p[|p| - 1]);
    }
  }

  lemma ClosedReach<T(!new)>(step: (T, T) -> bool, closed: T -> bool, a: T, b: T)
    requires Reaches(step, a, b) && closed(a)
    requires forall x, y | closed(x) && step(x, y) :: closed(y)
    ensures closed(b)
  {
    var p :| PathFromTo(step, p, a, b);
    ClosedPath(step, closed, p);
  }
}
