/** Collecting an object type and everything below it. Every node is marked as visited. */
module ObjectTypeWalk {
  import opened NodeIds
  import opened AddressSpace
  import opened Reachability

  datatype ObjectTypeElement = ObjectTypeElement(nodeClass: NodeClass, parent: UaNodeId, children: seq<UaNodeId>)

  type Elements = map<UaNodeId, ObjectTypeElement>

  function Step(g: Graph): (UaNodeId, UaNodeId) -> bool {
    (a: UaNodeId, b: UaNodeId) => b in Children(g, a)
  }

  /** A recorded element shows its class and all its forward references, which are resolved and
      recorded too. */
  predicate Recorded(g: Graph, n: UaNodeId, elements: Elements) {
    && n in elements && n in g.classes
    && elements[n].nodeClass == g.classes[n]
    && elements[n].children == Children(g, n)
    && Resolvable(g, n, Children(g, n))
    && forall c | c in Children(g, n) :: c in elements
  }

  /** The parent of an element lists it as a child. */
  predicate HasParent(n: UaNodeId, elements: Elements) {
    n in elements && elements[n].parent in elements && n in elements[elements[n].parent].children
  }

  /** A new element is recorded and, but for the root, has a parent that is also new. */
  predicate Entered(g: Graph, m: UaNodeId, root: UaNodeId, before: Elements, after: Elements) {
    Recorded(g, m, after) && (m != root ==> HasParent(m, after) && after[m].parent !in before)
  }

  /** A walk from `n` keeps old elements, records new ones completely, and gives each new one but
      the root a parent that is also new. */
  ghost predicate Walked(g: Graph, n: UaNodeId, parent: UaNodeId, before: Elements, after: Elements) {
    && n in after
    && (forall m | m in before :: m in after && after[m] == before[m])
    && (n !in before ==> after[n].parent == parent)
    && forall m {:trigger Entered(g, m, n, before, after)} | m in after && m !in before ::
      Entered(g, m, n, before, after)
  }

  /** In the middle of the loop over the references of `n`: its entry lists the children so far. */
  ghost predicate Walking(g: Graph, n: UaNodeId, parent: UaNodeId, before: Elements, now: Elements,
      seen: seq<UaNodeId>) {
    && n !in before && n in now && n in g.classes
    && now[n] == ObjectTypeElement(g.classes[n], parent, seen)
    && (forall c | c in seen :: c in now && c in g.classes)
    && (forall m | m in before :: m in now && now[m] == before[m])
    && forall m {:trigger Entered(g, m, n, before, now)} | m in now && m !in before && m != n ::
         Entered(g, m, n, before, now)
  }

  /** The walk from a child completes the loop's invariant for one more child. */
  lemma WalkedChild(g: Graph, n: UaNodeId, parent: UaNodeId, before: Elements, seen: seq<UaNodeId>, c: UaNodeId,
      mid: Elements, pushed: Elements, after: Elements)
    requires Walking(g, n, parent, before, mid, seen)
    requires pushed == mid[n := mid[n].(children := seen + [c])]
    requires Walked(g, c, n, pushed, after) && c in g.classes
    ensures Walking(g, n, parent, before, after, seen + [c])
  {
    forall m | m in after && m !in before && m != n
      ensures Entered(g, m, n, before, after)
    {
      if m in mid {
        assert Entered(g, m, n, before, mid);
        assert after[m] == pushed[m] == mid[m];
        assert Recorded(g, m, mid) && HasParent(m, mid);
      } else if m == c {
        assert Entered(g, m, c, pushed, after);
        assert after[m].parent == n;
      } else {
        assert Entered(g, m, c, pushed, after);
      }
    }
  }

  lemma WalkedAll(g: Graph, n: UaNodeId, parent: UaNodeId, before: Elements, after: Elements)
    requires Walking(g, n, parent, before, after, Children(g, n)) && n in g.references
    ensures Walked(g, n, parent, before, after)
  {
  }

  ghost predicate Closed(g: Graph, elements: Elements) {
    forall m {:trigger Recorded(g, m, elements)} | m in elements :: Recorded(g, m, elements)
  }

  lemma StaysClosed(g: Graph, n: UaNodeId, parent: UaNodeId, before: Elements, after: Elements)
    requires Closed(g, before) && Walked(g, n, parent, before, after)
    ensures Closed(g, after)
  {
    forall m | m in after
      ensures Recorded(g, m, after)
    {
      if m in before {
        assert Recorded(g, m, before);
      } else {
        assert Entered(g, m, n, before, after);
      }
    }
  }

  lemma ReachableIsRecorded(g: Graph, n: UaNodeId, elements: Elements, m: UaNodeId)
    requires Closed(g, elements) && n in elements && Reaches(Step(g), n, m)
    ensures m in elements && Recorded(g, m, elements)
  {
    assert forall x | x in elements :: Recorded(g, x, elements);
    var recorded: UaNodeId -> bool := (x: UaNodeId) => x in elements;
    ClosedReach(Step(g), recorded, n, m);
  }

  /** A walk that succeeds from a closed table has met no unresolved node, and missed none. */
  lemma Resolved(g: Graph, n: UaNodeId, parent: UaNodeId, before: Elements, after: Elements)
    requires Walked(g, n, parent, before, after)
    ensures Closed(g, before) ==> !Unresolved(g, Step(g), n)
  {
    if Closed(g, before) && Unresolved(g, Step(g), n) {
      StaysClosed(g, n, parent, before, after);
      var m :| Reaches(Step(g), n, m) && !Resolvable(g, m, Children(g, m));
      ReachableIsRecorded(g, n, after, m);
      assert false;
    }
  }

  class NodeManager {
    var objectTypeElements: Elements

    /** `addObjectTypeElements`: false stands for the exception about a node that cannot be
        resolved. Cycles end at marked nodes. */
    method AddObjectTypeElements(g: Graph, n: UaNodeId, parent: UaNodeId) returns (ok: bool)
      requires n in g.classes
      modifies this
      ensures ok ==> Walked(g, n, parent, old(objectTypeElements), objectTypeElements)
      ensures old(objectTypeElements).Keys <= objectTypeElements.Keys
      ensures OnlyReachable(Step(g), n, old(objectTypeElements).Keys, objectTypeElements.Keys)
      ensures !ok ==> Unresolved(g, Step(g), n)
      ensures Closed(g, old(objectTypeElements)) ==> (ok <==> !Unresolved(g, Step(g), n))
      decreases g.classes.Keys - objectTypeElements.Keys
    {
      if n in objectTypeElements {
        Resolved(g, n, parent, objectTypeElements, objectTypeElements);
        return true;
      }
      objectTypeElements := objectTypeElements[n := ObjectTypeElement(g.classes[n], parent, [])];
      ReachesSelf(Step(g), n);
      if n !in g.references {
        UnresolvedHere(g, Step(g), n);
        return false;
      }
      var referenced := Children(g, n);
      for i := 0 to |referenced|
        invariant Walking(g, n, parent, old(objectTypeElements), objectTypeElements, referenced[..i])
        invariant OnlyReachable(Step(g), n, old(objectTypeElements).Keys, objectTypeElements.Keys)
      {
        var c := referenced[i];
        assert referenced[..i + 1] == referenced[..i] + [c];
        assert Step(g)(n, c);
        if c !in g.classes {
          UnresolvedHere(g, Step(g), n);
          return false;
        }
        ghost var mid := objectTypeElements;
        var element := objectTypeElements[n];
        objectTypeElements := objectTypeElements[n := element.(children := element.children + [c])];
        ghost var pushed := objectTypeElements;
        assert n in g.classes.Keys - old(objectTypeElements).Keys && n !in g.classes.Keys - pushed.Keys;
        assert g.classes.Keys - pushed.Keys <= g.classes.Keys - old(objectTypeElements).Keys;
        var found := AddObjectTypeElements(g, c, n);
        ReachableFromChild(Step(g), n, c, old(objectTypeElements).Keys, pushed.Keys, objectTypeElements.Keys);
        if !found {
          UnresolvedBelow(g, Step(g), n, c);
          return false;
        }
        WalkedChild(g, n, parent, old(objectTypeElements), referenced[..i], c, mid, pushed, objectTypeElements);
      }
      assert referenced[..|referenced|] == referenced;
      WalkedAll(g, n, parent, old(objectTypeElements), objectTypeElements);
      Resolved(g, n, parent, old(objectTypeElements), objectTypeElements);
      return true;
    }
  }

  /** Main result: a walk from a closed table leaves a closed table, which is the old one and exactly
      what is reachable by forward references; every new element but the root has a new parent that
      lists it. */
  lemma WalkAddsExactlyReachable(g: Graph, n: UaNodeId, parent: UaNodeId, before: Elements, after: Elements)
    requires Closed(g, before) && Walked(g, n, parent, before, after)
    requires OnlyReachable(Step(g), n, before.Keys, after.Keys)
    ensures Closed(g, after)
    ensures forall m :: m in after <==> m in before || Reaches(Step(g), n, m)
    ensures forall m | m in after && m !in before && m != n :: HasParent(m, after) && after[m].parent !in before
  {
    StaysClosed(g, n, parent, before, after);
    assert forall m | m in after && m !in before :: Entered(g, m, n, before, after);
    forall m | Reaches(Step(g), n, m)
      ensures m in after
    {
      ReachableIsRecorded(g, n, after, m);
    }
  }
}
