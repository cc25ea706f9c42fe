/** The search for event types: up and down the type hierarchy. */
module EventTypeSearch {
  import opened Wrappers
  import opened NodeIds
  import opened AddressSpace
  import opened Reachability

  datatype Direction = Both | Forward | Inverse

  /** An incoming GeneratesEvent reference. */
  predicate IsEventMark(r: Reference) {
    r.referenceType == GeneratesEvent && !r.isForward
  }

  predicate IsGenerated(g: Graph, n: UaNodeId) {
    exists r :: r in TypeReferences(g, n) && IsEventMark(r)
  }

  /** A sub type reference when looking down, a super type reference when looking up. */
  predicate IsSubtypeRef(r: Reference, down: bool) {
    r.referenceType == HasSubtype && r.isForward == down
  }

  /** The references the search enters. */
  predicate Follows(d: Direction, r: Reference) {
    r.referenceType == HasSubtype
    && (d == Both || (d == Forward && r.isForward) || (d == Inverse && !r.isForward))
  }

  /** Each sub type or super type reference leads to a smaller rank in its direction. */
  ghost predicate Acyclic(g: Graph, rank: (UaNodeId, bool) -> nat) {
    forall n, r | r in TypeReferences(g, n) && r.referenceType == HasSubtype ::
      rank(r.target, r.isForward) < rank(n, r.isForward)
  }

  ghost function Measure(n: UaNodeId, d: Direction, rank: (UaNodeId, bool) -> nat): nat {
    match d
    case Both => 0
    case Forward => rank(n, true)
    case Inverse => rank(n, false)
  }

  function Only(down: bool): Direction {
    if down then Forward else Inverse
  }

  /** Some reference marks the node, or leads in the direction to a node that is found. */
  ghost predicate Search(g: Graph, n: UaNodeId, d: Direction, rank: (UaNodeId, bool) -> nat)
    requires Acyclic(g, rank)
    decreases if d == Both then 1 else 0, Measure(n, d, rank)
  {
    exists r :: r in TypeReferences(g, n) &&
      (IsEventMark(r) || (Follows(d, r) && Search(g, r.target, Only(r.isForward), rank)))
  }

  /** Some reference leads to a node that cannot be found, or a node cannot be browsed. */
  ghost predicate Broken(g: Graph, n: UaNodeId, d: Direction, rank: (UaNodeId, bool) -> nat)
    requires Acyclic(g, rank)
    decreases if d == Both then 1 else 0, Measure(n, d, rank)
  {
    || n !in g.references
    || exists r :: r in TypeReferences(g, n) && Follows(d, r)
         && (r.target !in g.classes || Broken(g, r.target, Only(r.isForward), rank))
  }

  /** The answer of the search, which looks at the references in order: a mark or a hit ends it,
      and so does a node that cannot be resolved. */
  ghost function Answer(g: Graph, n: UaNodeId, d: Direction, rank: (UaNodeId, bool) -> nat): Result<bool>
    requires Acyclic(g, rank)
    decreases if d == Both then 1 else 0, Measure(n, d, rank), 1, 0
  {
    if n !in g.references then Failure else AnswerFrom(g, n, d, 0, rank)
  }

  ghost function AnswerFrom(g: Graph, n: UaNodeId, d: Direction, k: nat, rank: (UaNodeId, bool) -> nat): Result<bool>
    requires Acyclic(g, rank) && k <= |TypeReferences(g, n)|
    decreases if d == Both then 1 else 0, Measure(n, d, rank), 0, |TypeReferences(g, n)| - k
  {
    var refs := TypeReferences(g, n);
    if k == |refs| then Success(false)
    else
      var ref := refs[k];
      assert ref in refs;
      if IsEventMark(ref) then Success(true)
      else if !Follows(d, ref) then AnswerFrom(g, n, d, k + 1, rank)
      else if ref.target !in g.classes then Failure
      else
        var below := Answer(g, ref.target, Only(ref.isForward), rank);
        if below == Success(false) then AnswerFrom(g, n, d, k + 1, rank) else below
  }

  /** `isEventType`; a failure stands for the exception about a node that cannot be resolved. */
  method IsEventType(g: Graph, n: UaNodeId, d: Direction, ghost rank: (UaNodeId, bool) -> nat) returns (r: Result<bool>)
    requires Acyclic(g, rank)
    ensures r == Answer(g, n, d, rank)
    decreases if d == Both then 1 else 0, Measure(n, d, rank)
  {
    if n !in g.references {
      return Failure;
    }
    var refs := TypeReferences(g, n);
    for i := 0 to |refs|
      invariant Answer(g, n, d, rank) == AnswerFrom(g, n, d, i, rank)
    {
      var ref := refs[i];
      assert ref in refs;
      if IsEventMark(ref) {
        return Success(true);
      }
      if Follows(d, ref) {
        if ref.target !in g.classes {
          return Failure;
        }
        var below := IsEventType(g, ref.target, Only(ref.isForward), rank);
        if below.Failure? || below.value {
          return below;
        }
      }
    }
    return Success(false);
  }

  /** A reference that ends the search with success. */
  ghost predicate Hit(g: Graph, d: Direction, r: Reference, rank: (UaNodeId, bool) -> nat)
    requires Acyclic(g, rank)
  {
    IsEventMark(r) || (Follows(d, r) && Search(g, r.target, Only(r.isForward), rank))
  }

  ghost predicate HitFrom(g: Graph, n: UaNodeId, d: Direction, k: nat, rank: (UaNodeId, bool) -> nat)
    requires Acyclic(g, rank)
    decreases |TypeReferences(g, n)| - k
  {
    k < |TypeReferences(g, n)| && (Hit(g, d, TypeReferences(g, n)[k], rank) || HitFrom(g, n, d, k + 1, rank))
  }

  lemma {:induction false} SomeHit(g: Graph, n: UaNodeId, d: Direction, k: nat, rank: (UaNodeId, bool) -> nat)
    requires Acyclic(g, rank)
    ensures HitFrom(g, n, d, k, rank) <==>
      exists j :: k <= j < |TypeReferences(g, n)| && Hit(g, d, TypeReferences(g, n)[j], rank)
    decreases |TypeReferences(g, n)| - k
  {
    if k < |TypeReferences(g, n)| {
      SomeHit(g, n, d, k + 1, rank);
    }
  }

  lemma SearchIsHit(g: Graph, n: UaNodeId, d: Direction, rank: (UaNodeId, bool) -> nat)
    requires Acyclic(g, rank)
    ensures Search(g, n, d, rank) <==> HitFrom(g, n, d, 0, rank)
  {
    SomeHit(g, n, d, 0, rank);
    var refs := TypeReferences(g, n);
    if Search(g, n, d, rank) {
      var r :| r in refs && Hit(g, d, r, rank);
      var j :| 0 <= j < |refs| && refs[j] == r;
    }
  }

  /** An answer is that of the search, and without one some node is broken; without broken nodes
      there is an answer. */
  lemma {:induction false} AnswerIsSearch(g: Graph, n: UaNodeId, d: Direction, rank: (UaNodeId, bool) -> nat)
    requires Acyclic(g, rank)
    ensures Answer(g, n, d, rank).Success? ==> (Answer(g, n, d, rank).value <==> Search(g, n, d, rank))
    ensures Answer(g, n, d, rank).Failure? ==> Broken(g, n, d, rank)
    decreases if d == Both then 1 else 0, Measure(n, d, rank), 1, 0
  {
    if n in g.references {
      AnswerFromIsSearch(g, n, d, 0, rank);
      SearchIsHit(g, n, d, rank);
    }
  }

  lemma {:induction false} AnswerFromIsSearch(g: Graph, n: UaNodeId, d: Direction, k: nat,
      rank: (UaNodeId, bool) -> nat)
    requires Acyclic(g, rank) && n in g.references && k <= |TypeReferences(g, n)|
    ensures AnswerFrom(g, n, d, k, rank).Success? ==>
      (AnswerFrom(g, n, d, k, rank).value <==> HitFrom(g, n, d, k, rank))
    ensures AnswerFrom(g, n, d, k, rank).Failure? ==> Broken(g, n, d, rank)
    decreases if d == Both then 1 else 0, Measure(n, d, rank), 0, |TypeReferences(g, n)| - k
  {
    if k < |TypeReferences(g, n)| {
      var r := TypeReferences(g, n)[k];
      AnswerStep(g, n, d, k, rank);
      AnswerFromIsSearch(g, n, d, k + 1, rank);
      if !IsEventMark(r) && Follows(d, r) {
        BrokenBelow(g, n, d, r, rank);
        if r.target in g.classes {
          AnswerIsSearch(g, r.target, Only(r.isForward), rank);
        }
      }
    }
  }

  /** One reference: a mark answers, a reference to enter answers unless nothing is found there. */
  lemma AnswerStep(g: Graph, n: UaNodeId, d: Direction, k: nat, rank: (UaNodeId, bool) -> nat)
    requires Acyclic(g, rank) && k < |TypeReferences(g, n)|
    ensures var r, rest := TypeReferences(g, n)[k], AnswerFrom(g, n, d, k + 1, rank);
      && r in TypeReferences(g, n)
      && AnswerFrom(g, n, d, k, rank) ==
           if IsEventMark(r) then Success(true)
           else if !Follows(d, r) then rest
           else if r.target !in g.classes then Failure
           else if Answer(g, r.target, Only(r.isForward), rank) == Success(false) then rest
           else Answer(g, r.target, Only(r.isForward), rank)
  {
  }

  lemma BrokenBelow(g: Graph, n: UaNodeId, d: Direction, r: Reference, rank: (UaNodeId, bool) -> nat)
    requires Acyclic(g, rank) && r in TypeReferences(g, n) && Follows(d, r)
    ensures r.target !in g.classes || Broken(g, r.target, Only(r.isForward), rank) ==> Broken(g, n, d, rank)
  {
  }

  /** Where nothing is found, the search fails exactly if some node it has to visit is broken. */
  lemma {:induction false} FailsExactly(g: Graph, n: UaNodeId, d: Direction, rank: (UaNodeId, bool) -> nat)
    requires Acyclic(g, rank) && !Search(g, n, d, rank)
    ensures Answer(g, n, d, rank).Failure? <==> Broken(g, n, d, rank)
    decreases if d == Both then 1 else 0, Measure(n, d, rank)
  {
    AnswerIsSearch(g, n, d, rank);
    if n in g.references && Broken(g, n, d, rank) {
      var i := BrokenReference(g, n, d, rank);
      var r := TypeReferences(g, n)[i];
      if r.target in g.classes {
        assert r in TypeReferences(g, n) && !Hit(g, d, r, rank);
        FailsExactly(g, r.target, Only(r.isForward), rank);
      }
      FailsAt(g, n, d, i, rank);
      FailsBefore(g, n, d, i, rank);
    }
  }

  lemma BrokenReference(g: Graph, n: UaNodeId, d: Direction, rank: (UaNodeId, bool) -> nat) returns (i: nat)
    requires Acyclic(g, rank) && n in g.references && Broken(g, n, d, rank)
    ensures i < |TypeReferences(g, n)| && Follows(d, TypeReferences(g, n)[i])
    ensures var r := TypeReferences(g, n)[i];
      r in TypeReferences(g, n) && (r.target !in g.classes || Broken(g, r.target, Only(r.isForward), rank))
  {
    var refs := TypeReferences(g, n);
    var r :| r in refs && Follows(d, r) && (r.target !in g.classes || Broken(g, r.target, Only(r.isForward), rank));
    i :| 0 <= i < |refs| && refs[i] == r;
  }

  lemma FailsAt(g: Graph, n: UaNodeId, d: Direction, i: nat, rank: (UaNodeId, bool) -> nat)
    requires Acyclic(g, rank) && i < |TypeReferences(g, n)|
    requires var r := TypeReferences(g, n)[i];
      Follows(d, r) && (r.target !in g.classes || Answer(g, r.target, Only(r.isForward), rank).Failure?)
    ensures AnswerFrom(g, n, d, i, rank).Failure?
  {
  }

  lemma {:induction false} FailsBefore(g: Graph, n: UaNodeId, d: Direction, k: nat, rank: (UaNodeId, bool) -> nat)
    requires Acyclic(g, rank) && !Search(g, n, d, rank) && k <= |TypeReferences(g, n)|
    requires AnswerFrom(g, n, d, k, rank).Failure?
    ensures AnswerFrom(g, n, d, 0, rank).Failure?
  {
    if k > 0 {
      var ref := TypeReferences(g, n)[k - 1];
      AnswerStep(g, n, d, k - 1, rank);
      NoHit(g, n, d, ref, rank);
      if Follows(d, ref) && ref.target in g.classes {
        AnswerIsSearch(g, ref.target, Only(ref.isForward), rank);
      }
      FailsBefore(g, n, d, k - 1, rank);
    }
  }

  lemma NoHit(g: Graph, n: UaNodeId, d: Direction, r: Reference, rank: (UaNodeId, bool) -> nat)
    requires Acyclic(g, rank) && !Search(g, n, d, rank) && r in TypeReferences(g, n)
    ensures !IsEventMark(r) && (Follows(d, r) ==> !Search(g, r.target, Only(r.isForward), rank))
  {
  }

  // ---- What the search means ----

  ghost function Step(g: Graph, down: bool): (UaNodeId, UaNodeId) -> bool {
    (a: UaNodeId, b: UaNodeId) => exists r :: r in TypeReferences(g, a) && IsSubtypeRef(r, down) && r.target == b
  }

  /** A node is generated as an event if an object type refers to it as one that it generates. */
  lemma GeneratedIsReferenced(g: Graph, n: UaNodeId)
    ensures IsGenerated(g, n) <==>
      && n in g.references
      && exists r :: r in g.references[n] && r.targetClass == ObjectType && r.referenceType == GeneratesEvent &&
           !r.isForward
  {
    if n in g.references {
      assert forall r :: r in TypeReferences(g, n) <==> r in g.references[n] && r.targetClass == ObjectType;
    }
  }

  /** Down goes to sub types, up to super types. */
  lemma StepIsReference(g: Graph, a: UaNodeId, b: UaNodeId, down: bool)
    ensures Step(g, down)(a, b) <==>
      && a in g.references
      && exists r :: r in g.references[a] && r.target == b && r.targetClass == ObjectType &&
           r.referenceType == HasSubtype && (r.isForward <==> down)
  {
    if a in g.references {
      assert forall r :: r in TypeReferences(g, a) <==> r in g.references[a] && r.targetClass == ObjectType;
    }
  }

  /** A type that is generated as an event and reached going only down, or only up. */
  ghost predicate FoundVia(g: Graph, n: UaNodeId, down: bool) {
    exists m :: Reaches(Step(g, down), n, m) && IsGenerated(g, m)
  }

  lemma FoundBelow(g: Graph, n: UaNodeId, r: Reference)
    requires r in TypeReferences(g, n) && r.referenceType == HasSubtype && FoundVia(g, r.target, r.isForward)
    ensures FoundVia(g, n, r.isForward)
  {
    var m :| Reaches(Step(g, r.isForward), r.target, m) && IsGenerated(g, m);
    assert IsSubtypeRef(r, r.isForward);
    ReachesStep(Step(g, r.isForward), n, r.target, m);
  }

  lemma FoundHere(g: Graph, n: UaNodeId, down: bool)
    requires IsGenerated(g, n)
    ensures FoundVia(g, n, down)
  {
    ReachesSelf(Step(g, down), n);
  }

  lemma {:induction false} SearchFinds(g: Graph, n: UaNodeId, down: bool, rank: (UaNodeId, bool) -> nat)
    requires Acyclic(g, rank) && Search(g, n, Only(down), rank)
    ensures FoundVia(g, n, down)
    decreases rank(n, down)
  {
    var r :| r in TypeReferences(g, n) &&
      (IsEventMark(r) || (Follows(Only(down), r) && Search(g, r.target, Only(r.isForward), rank)));
    if IsEventMark(r) {
      FoundHere(g, n, down);
    } else {
      SearchFinds(g, r.target, down, rank);
      FoundBelow(g, n, r);
    }
  }

  lemma {:induction false} SearchIsComplete(g: Graph, n: UaNodeId, down: bool, m: UaNodeId,
      rank: (UaNodeId, bool) -> nat)
    requires Acyclic(g, rank) && Reaches(Step(g, down), n, m) && IsGenerated(g, m)
    ensures Search(g, n, Only(down), rank)
    decreases rank(n, down)
  {
    if m != n {
      var c := FirstStep(Step(g, down), n, m);
      var r :| r in TypeReferences(g, n) && IsSubtypeRef(r, down) && r.target == c;
      SearchIsComplete(g, c, down, m, rank);
    }
  }

  lemma DirectedSearch(g: Graph, n: UaNodeId, down: bool, rank: (UaNodeId, bool) -> nat)
    requires Acyclic(g, rank)
    ensures Search(g, n, Only(down), rank) <==> FoundVia(g, n, down)
  {
    if Search(g, n, Only(down), rank) {
      SearchFinds(g, n, down, rank);
    }
    if FoundVia(g, n, down) {
      var m :| Reaches(Step(g, down), n, m) && IsGenerated(g, m);
      SearchIsComplete(g, n, down, m, rank);
    }
  }

  lemma DirectionOfBoth(g: Graph, n: UaNodeId, down: bool, rank: (UaNodeId, bool) -> nat)
    requires Acyclic(g, rank) && Search(g, n, Only(down), rank)
    ensures Search(g, n, Both, rank)
  {
    var r :| r in TypeReferences(g, n) &&
      (IsEventMark(r) || (Follows(Only(down), r) && Search(g, r.target, Only(r.isForward), rank)));
    assert Follows(Only(down), r) ==> Follows(Both, r);
  }

  /** A search in both directions never turns round. */
  lemma BothDirections(g: Graph, n: UaNodeId, rank: (UaNodeId, bool) -> nat)
    requires Acyclic(g, rank) && Search(g, n, Both, rank)
    ensures Search(g, n, Forward, rank) || Search(g, n, Inverse, rank)
  {
    var r :| r in TypeReferences(g, n) &&
      (IsEventMark(r) || (Follows(Both, r) && Search(g, r.target, Only(r.isForward), rank)));
    assert Follows(Both, r) ==> Follows(Only(r.isForward), r);
  }

  /** Main result: a type is an event type exactly when the type itself, a transitive sub type or a
      transitive super type has an incoming GeneratesEvent reference; siblings do not count. */
  lemma EventTypeMeaning(g: Graph, n: UaNodeId, rank: (UaNodeId, bool) -> nat)
    requires Acyclic(g, rank)
    ensures Search(g, n, Both, rank) <==> FoundVia(g, n, true) || FoundVia(g, n, false)
  {
    if Search(g, n, Both, rank) {
      BothDirections(g, n, rank);
    }
    if Search(g, n, Only(true), rank) {
      DirectionOfBoth(g, n, true, rank);
    }
    if Search(g, n, Only(false), rank) {
      DirectionOfBoth(g, n, false, rank);
    }
    DirectedSearch(g, n, true, rank);
    DirectedSearch(g, n, false, rank);
  }
}
