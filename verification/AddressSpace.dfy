/** The address space as the node manager browses it. */
module AddressSpace {
  import opened NodeIds
  import opened Reachability

  datatype NodeClass = Object | Variable | ObjectType | OtherClass

  datatype ReferenceType = HasSubtype | OtherHierarchical | GeneratesEvent | OtherReference

  /** One reference as a node shows it. */
  datatype Reference = Reference(target: UaNodeId, targetClass: NodeClass, referenceType: ReferenceType,
      isForward: bool)

  /** Nodes that can be found, and the references of nodes that can be browsed. */
  datatype Graph = Graph(classes: map<UaNodeId, NodeClass>, references: map<UaNodeId, seq<Reference>>)

  predicate IsHierarchical(r: Reference) {
    r.referenceType == HasSubtype || r.referenceType == OtherHierarchical
  }

  function Filter(refs: seq<Reference>, keep: Reference -> bool): (r: seq<Reference>)
    ensures forall x :: x in r <==> x in refs && keep(x)
  {
    if refs == [] then []
    else
      assert forall x :: x in refs <==> x == refs[0] || x in refs[1..];
      (if keep(refs[0]) then [refs[0]] else []) + Filter(refs[1..], keep)
  }

  function TargetsOf(refs: seq<Reference>): (r: seq<UaNodeId>)
    ensures |r| == |refs|
  {
    seq(|refs|, i requires 0 <= i < |refs| => refs[i].target)
  }

  /** The targets of the forward hierarchical references, in browse order. */
  function Children(g: Graph, n: UaNodeId): seq<UaNodeId> {
    if n !in g.references then []
    else TargetsOf(Filter(g.references[n], (r: Reference) => IsHierarchical(r) && r.isForward))
  }

  predicate NotHierarchical(r: Reference) {
    r.referenceType == GeneratesEvent || r.referenceType == OtherReference
  }

  /** A child is what some forward hierarchical reference of the node leads to. */
  lemma ChildrenAreReferenced(g: Graph, n: UaNodeId, c: UaNodeId)
    ensures c in Children(g, n) <==>
      && n in g.references
      && exists r :: r in g.references[n] && r.target == c && r.isForward && !NotHierarchical(r)
  {
    if n in g.references {
      var keep := (r: Reference) => IsHierarchical(r) && r.isForward;
      var kept := Filter(g.references[n], keep);
      if r :| r in g.references[n] && keep(r) && r.target == c {
        assert r in kept;
        var i :| 0 <= i < |kept| && kept[i] == r;
        assert TargetsOf(kept)[i] == c;
      }
      if i :| 0 <= i < |kept| && kept[i].target == c {
        assert kept[i] in kept;
      }
    }
  }

  /** The references of all types to object types. */
  function TypeReferences(g: Graph, n: UaNodeId): seq<Reference> {
    if n !in g.references then []
    else Filter(g.references[n], (r: Reference) => r.targetClass == ObjectType)
  }

  /** A node can be browsed and all the given nodes can be found. */
  predicate Resolvable(g: Graph, n: UaNodeId, targets: seq<UaNodeId>) {
    n in g.references && forall t | t in targets :: t in g.classes
  }

  // ---- Walks: from a node to those that a step leads to ----

  /** A reachable node that cannot be browsed, or that refers to a node that cannot be found. */
  ghost predicate Unresolved(g: Graph, step: (UaNodeId, UaNodeId) -> bool, n: UaNodeId) {
    exists m :: Reaches(step, n, m) && !Resolvable(g, m, Children(g, m))
  }

  lemma UnresolvedBelow(g: Graph, step: (UaNodeId, UaNodeId) -> bool, n: UaNodeId, c: UaNodeId)
    requires step(n, c) && Unresolved(g, step, c)
    ensures Unresolved(g, step, n)
  {
    var m :| Reaches(step, c, m) && !Resolvable(g, m, Children(g, m));
    ReachesStep(step, n, c, m);
  }

  lemma UnresolvedHere(g: Graph, step: (UaNodeId, UaNodeId) -> bool, n: UaNodeId)
    requires !Resolvable(g, n, Children(g, n))
    ensures Unresolved(g, step, n)
  {
    ReachesSelf(step, n);
  }

  /** Only reachable nodes are added to a table. */
  ghost predicate OnlyReachable(step: (UaNodeId, UaNodeId) -> bool, n: UaNodeId, before: set<UaNodeId>,
      after: set<UaNodeId>) {
    forall m | m in after && m !in before :: Reaches(step, n, m)
  }

  lemma ReachableFromChild(step: (UaNodeId, UaNodeId) -> bool, n: UaNodeId, c: UaNodeId,
      before: set<UaNodeId>, mid: set<UaNodeId>, after: set<UaNodeId>)
    requires step(n, c) && OnlyReachable(step, n, before, mid) && OnlyReachable(step, c, mid, after)
    ensures OnlyReachable(step, n, before, after)
  {
    forall m | m in after && m !in before
      ensures Reaches(step, n, m)
    {
      if m !in mid {
        ReachesStep(step, n, c, m);
      }
    }
  }
}

/** Collecting the variables below a node. Only variables are marked as visited. */
module VariableWalk {
  import opened Wrappers
  import opened NodeIds
  import opened AddressSpace
  import opened Reachability

  predicate IsVariable(g: Graph, n: UaNodeId) {
    n in g.classes && g.classes[n] == Variable
  }

  predicate IsFollowed(g: Graph, n: UaNodeId) {
    n in g.classes && (g.classes[n] == Variable || g.classes[n] == Object)
  }

  /** The walk goes from a node to its variables and objects. */
  function Step(g: Graph): (UaNodeId, UaNodeId) -> bool {
    (a: UaNodeId, b: UaNodeId) => b in Children(g, a) && IsFollowed(g, b)
  }

  /** A step follows a forward hierarchical reference to a variable or an object. */
  lemma StepIsReference(g: Graph, a: UaNodeId, b: UaNodeId)
    ensures Step(g)(a, b) <==>
      && a in g.references
      && (exists r :: r in g.references[a] && r.target == b && r.isForward && !NotHierarchical(r))
      && b in g.classes && g.classes[b] != ObjectType && g.classes[b] != OtherClass
  {
    ChildrenAreReferenced(g, a, b);
  }

  /** Ranks for the nodes in reach of the walks; elsewhere objects may form cycles. */
  type Ranking = UaNodeId -> Option<nat>

  /** Variables may refer to each other in cycles, but below a ranked node objects form no cycle. */
  ghost predicate ObjectsAcyclic(g: Graph, rank: Ranking) {
    forall a, b | rank(a).Some? && Step(g)(a, b) ::
      && rank(b).Some?
      && (!IsVariable(g, a) && !IsVariable(g, b) ==> rank(b).value < rank(a).value)
  }

  ghost function Height(g: Graph, rank: Ranking, n: UaNodeId): nat {
    if IsVariable(g, n) || rank(n).None? then 0 else 1 + rank(n).value
  }

  /** A variable is in the table; an object is resolved, and what is below it is covered. */
  ghost predicate Covered(g: Graph, rank: Ranking, n: UaNodeId, table: set<UaNodeId>)
    requires ObjectsAcyclic(g, rank)
    decreases Height(g, rank, n)
  {
    && rank(n).Some?
    && if IsVariable(g, n) then n in table
       else
         && Resolvable(g, n, Children(g, n))
         && forall c | c in Children(g, n) && IsFollowed(g, c) :: Covered(g, rank, c, table)
  }

  ghost predicate ChildrenCovered(g: Graph, rank: Ranking, n: UaNodeId, table: set<UaNodeId>)
    requires ObjectsAcyclic(g, rank)
  {
    && Resolvable(g, n, Children(g, n))
    && forall c | c in Children(g, n) && IsFollowed(g, c) :: Covered(g, rank, c, table)
  }

  ghost predicate Closed(g: Graph, rank: Ranking, table: set<UaNodeId>)
    requires ObjectsAcyclic(g, rank)
  {
    forall v | v in table :: ChildrenCovered(g, rank, v, table)
  }

  /** What a walk from `n` may and must add to a table. */
  ghost predicate Walked(g: Graph, rank: Ranking, n: UaNodeId, before: set<UaNodeId>, after: set<UaNodeId>)
    requires ObjectsAcyclic(g, rank)
  {
    && before <= after
    && Covered(g, rank, n, after)
    && (forall v | v in after && v !in before :: ChildrenCovered(g, rank, v, after))
  }

  lemma {:induction false} CoveredMonotone(g: Graph, rank: Ranking, n: UaNodeId, a: set<UaNodeId>,
      b: set<UaNodeId>)
    requires ObjectsAcyclic(g, rank) && a <= b && Covered(g, rank, n, a)
    ensures Covered(g, rank, n, b)
    decreases Height(g, rank, n)
  {
    if !IsVariable(g, n) {
      forall c | c in Children(g, n) && IsFollowed(g, c)
        ensures Covered(g, rank, c, b)
      {
        assert Step(g)(n, c);
        CoveredMonotone(g, rank, c, a, b);
      }
    }
  }

  lemma WalkedMonotone(g: Graph, rank: Ranking, n: UaNodeId, a: set<UaNodeId>, b: set<UaNodeId>)
    requires ObjectsAcyclic(g, rank) && a <= b && ChildrenCovered(g, rank, n, a)
    ensures ChildrenCovered(g, rank, n, b)
  {
    forall c | c in Children(g, n) && IsFollowed(g, c)
      ensures Covered(g, rank, c, b)
    {
      CoveredMonotone(g, rank, c, a, b);
    }
  }

  /** Walking on from a child keeps what was covered before. */
  lemma StillCovered(g: Graph, rank: Ranking, nodes: seq<UaNodeId>, base: set<UaNodeId>, a: set<UaNodeId>,
      b: set<UaNodeId>)
    requires ObjectsAcyclic(g, rank) && a <= b
    requires forall c | c in nodes && IsFollowed(g, c) :: Covered(g, rank, c, a)
    requires forall v | v in a && v !in base :: ChildrenCovered(g, rank, v, a)
    requires forall v | v in b && v !in a :: ChildrenCovered(g, rank, v, b)
    ensures forall c | c in nodes && IsFollowed(g, c) :: Covered(g, rank, c, b)
    ensures forall v | v in b && v !in base :: ChildrenCovered(g, rank, v, b)
  {
    forall c | c in nodes && IsFollowed(g, c)
      ensures Covered(g, rank, c, b)
    {
      CoveredMonotone(g, rank, c, a, b);
    }
    forall v | v in b && v !in base
      ensures ChildrenCovered(g, rank, v, b)
    {
      if v in a {
        WalkedMonotone(g, rank, v, a, b);
      }
    }
  }

  /** A walk from a closed table leaves a closed one. */
  lemma StaysClosed(g: Graph, rank: Ranking, n: UaNodeId, before: set<UaNodeId>, after: set<UaNodeId>)
    requires ObjectsAcyclic(g, rank) && Closed(g, rank, before) && Walked(g, rank, n, before, after)
    ensures Closed(g, rank, after)
  {
    forall v | v in after
      ensures ChildrenCovered(g, rank, v, after)
    {
      if v in before {
        WalkedMonotone(g, rank, v, before, after);
      }
    }
  }

  /** Everything reachable from a covered node is covered, if the table is closed. */
  lemma ReachableIsCovered(g: Graph, rank: Ranking, n: UaNodeId, table: set<UaNodeId>, v: UaNodeId)
    requires ObjectsAcyclic(g, rank) && Closed(g, rank, table) && Covered(g, rank, n, table)
    requires Reaches(Step(g), n, v)
    ensures Covered(g, rank, v, table)
  {
    var covered: UaNodeId -> bool := (x: UaNodeId) => Covered(g, rank, x, table);
    forall x, y | covered(x) && Step(g)(x, y)
      ensures covered(y)
    {
      assert ChildrenCovered(g, rank, x, table);
    }
    ClosedReach(Step(g), covered, n, v);
  }

  /** A walk that succeeds from a closed table has met no unresolved node, and missed none. */
  lemma Resolved(g: Graph, rank: Ranking, n: UaNodeId, before: set<UaNodeId>, after: set<UaNodeId>)
    requires ObjectsAcyclic(g, rank) && Walked(g, rank, n, before, after)
    ensures Closed(g, rank, before) ==> !Unresolved(g, Step(g), n)
  {
    if Closed(g, rank, before) && Unresolved(g, Step(g), n) {
      StaysClosed(g, rank, n, before, after);
      var m :| Reaches(Step(g), n, m) && !Resolvable(g, m, Children(g, m));
      ReachableIsCovered(g, rank, n, after, m);
      assert false;
    }
  }

  class NodeManager {
    // the variables registered so far
    var variables: set<UaNodeId>

    /** `addVariables`: false stands for the exception about a node that cannot be resolved. The
        walk ends although variables may refer to each other in cycles: a marked variable is not
        entered again, and between variables there are only finitely many objects. */
    method AddVariables(g: Graph, n: UaNodeId, ghost rank: Ranking) returns (ok: bool)
      requires ObjectsAcyclic(g, rank) && n in g.classes && rank(n).Some?
      requires forall v | v in variables :: IsVariable(g, v)
      modifies this
      ensures forall v | v in variables :: IsVariable(g, v)
      ensures old(variables) <= variables && OnlyReachable(Step(g), n, old(variables), variables)
      ensures ok ==> Walked(g, rank, n, old(variables), variables)
      ensures !ok ==> Unresolved(g, Step(g), n)
      ensures Closed(g, rank, old(variables)) ==> (ok <==> !Unresolved(g, Step(g), n))
      decreases g.classes.Keys - variables, Height(g, rank, n)
    {
      if n in variables {
        Resolved(g, rank, n, variables, variables);
        return true;
      }
      if g.classes[n] == Variable {
        variables := variables + {n};
        ReachesSelf(Step(g), n);
      }
      if n !in g.references {
        UnresolvedHere(g, Step(g), n);
        return false;
      }
      ghost var base := variables;
      var referenced := Children(g, n);
      for i := 0 to |referenced|
        invariant base <= variables && forall v | v in variables :: IsVariable(g, v)
        invariant OnlyReachable(Step(g), n, old(variables), variables)
        invariant forall c | c in referenced[..i] :: c in g.classes
        invariant forall c | c in referenced[..i] && IsFollowed(g, c) :: Covered(g, rank, c, variables)
        invariant forall v | v in variables && v !in base :: ChildrenCovered(g, rank, v, variables)
      {
        var c := referenced[i];
        assert referenced[..i + 1] == referenced[..i] + [c];
        assert c in Children(g, n);
        if c !in g.classes {
          UnresolvedHere(g, Step(g), n);
          return false;
        }
        if IsFollowed(g, c) {
          assert Step(g)(n, c);
          ghost var mid := variables;
          var found := AddVariables(g, c, rank);
          ReachableFromChild(Step(g), n, c, old(variables), mid, variables);
          if !found {
            UnresolvedBelow(g, Step(g), n, c);
            return false;
          }
          StillCovered(g, rank, referenced[..i], base, mid, variables);
        }
      }
      assert referenced[..|referenced|] == referenced;
      Resolved(g, rank, n, old(variables), variables);
      return true;
    }
  }

  /** Main result: a walk from a closed table leaves a closed table, which is the old one and exactly
      the variables reachable through objects and variables. */
  lemma WalkAddsExactlyReachable(g: Graph, rank: Ranking, n: UaNodeId, before: set<UaNodeId>,
      after: set<UaNodeId>)
    requires ObjectsAcyclic(g, rank) && Closed(g, rank, before)
    requires Walked(g, rank, n, before, after) && OnlyReachable(Step(g), n, before, after)
    requires forall v | v in after && v !in before :: IsVariable(g, v)
    ensures Closed(g, rank, after)
    ensures forall v :: v in after <==>
      v in before || (v in g.classes && g.classes[v] == Variable && Reaches(Step(g), n, v))
  {
    StaysClosed(g, rank, n, before, after);
    forall v | IsVariable(g, v) && Reaches(Step(g), n, v)
      ensures v in after
    {
      ReachableIsCovered(g, rank, n, after, v);
    }
  }
}
