/** The registration of event types from the table that the object type walks have filled, and what
    the client sees of the same address space. */
module EventRegistration {
  import opened Wrappers
  import opened NodeIds
  import opened AddressSpace
  import opened EventTypeRegistryClass
  import F = EventFieldCollection
  import W = ObjectTypeWalk
  import S = EventTypeSearch

  // ---- The registration loop ----

  predicate IsVariable(g: Graph, n: UaNodeId) {
    n in g.classes && g.classes[n] == Variable
  }

  /** The children that are variables, under their browse names. */
  function VariableFields(g: Graph, names: UaNodeId -> string, children: seq<UaNodeId>): seq<EventField> {
    if children == [] then []
    else
      var c := children[|children| - 1];
      VariableFields(g, names, children[..|children| - 1]) + if IsVariable(g, c) then [EventField(names(c), c)] else []
  }

  /** What is registered of an element: its recorded parent as super type, its variables as fields. */
  function DeclarationOf(g: Graph, names: UaNodeId -> string, elements: W.Elements, n: UaNodeId): Declaration
    requires n in elements
  {
    Declaration(n, elements[n].parent, VariableFields(g, names, elements[n].children))
  }

  /** Whether an element is an event type; a failure is that of the search. */
  ghost function Examined(g: Graph, elements: W.Elements, n: UaNodeId, rank: (UaNodeId, bool) -> nat): Result<bool>
    requires S.Acyclic(g, rank) && n in elements
  {
    if elements[n].nodeClass == ObjectType then S.Answer(g, n, S.Both, rank) else Success(false)
  }

  ghost predicate IsRegistered(g: Graph, elements: W.Elements, n: UaNodeId, rank: (UaNodeId, bool) -> nat)
    requires S.Acyclic(g, rank) && n in elements
  {
    Examined(g, elements, n, rank) == Success(true)
  }

  /** The declarations of the event types of the table, in the order of the loop. */
  ghost function Declarations(g: Graph, names: UaNodeId -> string, elements: W.Elements, order: seq<UaNodeId>,
      rank: (UaNodeId, bool) -> nat): seq<Declaration>
    requires S.Acyclic(g, rank) && forall n | n in order :: n in elements
  {
    if order == [] then []
    else
      var n := order[|order| - 1];
      assert forall m | m in order[..|order| - 1] :: m in order;
      Declarations(g, names, elements, order[..|order| - 1], rank) +
        if IsRegistered(g, elements, n, rank) then [DeclarationOf(g, names, elements, n)] else []
  }

  /** The search has an answer for every object type. */
  ghost predicate AllAnswered(g: Graph, elements: W.Elements, order: seq<UaNodeId>, rank: (UaNodeId, bool) -> nat)
    requires S.Acyclic(g, rank) && forall n | n in order :: n in elements
  {
    forall n | n in order :: Examined(g, elements, n, rank).Success?
  }

  lemma OneMoreElement(r: Registry, xml: UaNodeId -> string, g: Graph, names: UaNodeId -> string, elements: W.Elements,
      order: seq<UaNodeId>, n: UaNodeId, rank: (UaNodeId, bool) -> nat)
    requires S.Acyclic(g, rank) && n in elements && forall m | m in order + [n] :: m in elements
    requires forall m | m in order :: m in elements
    ensures var before := RegisterAll(r, xml, Declarations(g, names, elements, order, rank));
      RegisterAll(r, xml, Declarations(g, names, elements, order + [n], rank)) ==
        if IsRegistered(g, elements, n, rank) then RegisterType(before, xml, DeclarationOf(g, names, elements, n))
        else before
    ensures AllAnswered(g, elements, order + [n], rank) <==>
      AllAnswered(g, elements, order, rank) && Examined(g, elements, n, rank).Success?
  {
    assert (order + [n])[..|order|] == order;
    var ds := Declarations(g, names, elements, order, rank);
    if IsRegistered(g, elements, n, rank) {
      assert (ds + [DeclarationOf(g, names, elements, n)])[..|ds|] == ds;
    } else {
      assert ds + [] == ds;
    }
  }

  /** The loop of `allNodesAndReferencesCreated` over the table, whose keys come in a given order;
      an element whose search fails is left out, and the failure is reported at the end. */
  method RegisterEventTypes(registry: EventTypeRegistry, g: Graph, names: UaNodeId -> string, elements: W.Elements,
      order: seq<UaNodeId>, ghost rank: (UaNodeId, bool) -> nat) returns (ok: bool)
    requires S.Acyclic(g, rank) && forall n | n in order :: n in elements
    modifies registry
    ensures registry.Now() ==
      RegisterAll(old(registry.Now()), registry.xml, Declarations(g, names, elements, order, rank))
    ensures ok <==> AllAnswered(g, elements, order, rank)
  {
    ok := true;
    ghost var start := registry.Now();
    for i := 0 to |order|
      invariant registry.Now() == RegisterAll(start, registry.xml, Declarations(g, names, elements, order[..i], rank))
      invariant ok <==> AllAnswered(g, elements, order[..i], rank)
    {
      assert order[..i + 1] == order[..i] + [order[i]];
      OneMoreElement(start, registry.xml, g, names, elements, order[..i], order[i], rank);
      var answered := RegisterIfEventType(registry, g, names, elements, order[i], rank);
      ok := ok && answered;
    }
    assert order[..|order|] == order;
  }

  /** The body of the loop. */
  method RegisterIfEventType(registry: EventTypeRegistry, g: Graph, names: UaNodeId -> string, elements: W.Elements,
      n: UaNodeId, ghost rank: (UaNodeId, bool) -> nat) returns (answered: bool)
    requires S.Acyclic(g, rank) && n in elements
    modifies registry
    ensures answered == Examined(g, elements, n, rank).Success?
    ensures registry.Now() ==
      if IsRegistered(g, elements, n, rank) then
        RegisterType(old(registry.Now()), registry.xml, DeclarationOf(g, names, elements, n))
      else old(registry.Now())
  {
    if elements[n].nodeClass != ObjectType {
      return true;
    }
    var isEventType := S.IsEventType(g, n, S.Both, rank);
    if isEventType == Success(true) {
      RegisterElement(registry, g, names, elements, n);
    }
    answered := isEventType.Success?;
  }

  lemma OneMoreChild(r: Registry, xml: UaNodeId -> string, g: Graph, names: UaNodeId -> string, n: UaNodeId,
      children: seq<UaNodeId>, c: UaNodeId)
    ensures var before := RegisterFields(r, xml, n, VariableFields(g, names, children));
      RegisterFields(r, xml, n, VariableFields(g, names, children + [c])) ==
        if IsVariable(g, c) then RegisterField(before, xml, n, EventField(names(c), c)) else before
  {
    assert (children + [c])[..|children|] == children;
    var fields := VariableFields(g, names, children);
    if IsVariable(g, c) {
      assert (fields + [EventField(names(c), c)])[..|fields|] == fields;
    } else {
      assert fields + [] == fields;
    }
  }

  /** One event type and the loop over its children. */
  method RegisterElement(registry: EventTypeRegistry, g: Graph, names: UaNodeId -> string, elements: W.Elements,
      n: UaNodeId)
    requires n in elements
    modifies registry
    ensures registry.Now() == RegisterType(old(registry.Now()), registry.xml, DeclarationOf(g, names, elements, n))
  {
    registry.RegisterEventType(elements[n].parent, n);
    ghost var typed := registry.Now();
    var children := elements[n].children;
    for i := 0 to |children|
      invariant registry.Now() == RegisterFields(typed, registry.xml, n, VariableFields(g, names, children[..i]))
    {
      var c := children[i];
      assert children[..i + 1] == children[..i] + [c];
      OneMoreChild(typed, registry.xml, g, names, n, children[..i], c);
      if IsVariable(g, c) {
        registry.RegisterEventField(n, c, names(c));
      }
    }
    assert children[..|children|] == children;
  }

  // ---- What the client sees ----

  /** The client browses hierarchical references, in both directions, to variables and object types. */
  predicate ClientSees(r: Reference) {
    IsHierarchical(r) && (r.targetClass == Variable || r.targetClass == ObjectType)
  }

  function ClientReferences(names: UaNodeId -> string, refs: seq<Reference>): seq<F.BrowseReference> {
    if refs == [] then []
    else
      var r := refs[|refs| - 1];
      ClientReferences(names, refs[..|refs| - 1]) +
        if ClientSees(r) then [F.BrowseReference(r.target, names(r.target), r.referenceType == HasSubtype, r.isForward)]
        else []
  }

  function ClientTypes(g: Graph, names: UaNodeId -> string): F.TypeSpace {
    map n | n in g.references :: ClientReferences(names, g.references[n])
  }

  /** The super types of a node as the client browses them. */
  function SupersOf(g: Graph, names: UaNodeId -> string, n: UaNodeId): seq<UaNodeId> {
    if n in g.references then F.SuperTypes(ClientReferences(names, g.references[n])) else []
  }

  // ---- The recorded parent ----

  /** An element has a super type as parent, or a parent that lists it as a child. */
  predicate ParentOk(g: Graph, names: UaNodeId -> string, elements: W.Elements, n: UaNodeId) {
    W.HasParent(n, elements) || (n in elements && elements[n].parent in SupersOf(g, names, n))
  }

  ghost predicate TableOk(g: Graph, names: UaNodeId -> string, elements: W.Elements) {
    && W.Closed(g, elements)
    && forall n {:trigger ParentOk(g, names, elements, n)} | n in elements :: ParentOk(g, names, elements, n)
  }

  /** A walk from an object type, which starts with its super type as parent, keeps this. */
  lemma WalkKeepsTable(g: Graph, names: UaNodeId -> string, n: UaNodeId, parent: UaNodeId, before: W.Elements,
      after: W.Elements)
    requires TableOk(g, names, before) && W.Walked(g, n, parent, before, after)
    requires parent in SupersOf(g, names, n)
    ensures TableOk(g, names, after)
  {
    W.StaysClosed(g, n, parent, before, after);
    forall m | m in after
      ensures ParentOk(g, names, after, m)
    {
      if m in before {
        assert ParentOk(g, names, before, m);
        assert after[m] == before[m];
        assert W.HasParent(m, before) ==> W.HasParent(m, after);
      } else {
        assert W.Entered(g, m, n, before, after);
      }
    }
  }

  /** An object type that the node set creates, with its super type. */
  datatype Creation = Creation(node: UaNodeId, superType: UaNodeId)

  ghost predicate AllMet(created: seq<Creation>, elements: W.Elements) {
    forall c | c in created :: c.node in elements
  }

  method CreateObjectType(manager: W.NodeManager, g: Graph, names: UaNodeId -> string, c: Creation) returns (ok: bool)
    requires TableOk(g, names, manager.objectTypeElements)
    requires c.node in g.classes && c.superType in SupersOf(g, names, c.node)
    modifies manager
    ensures ok ==> TableOk(g, names, manager.objectTypeElements) && c.node in manager.objectTypeElements
    ensures old(manager.objectTypeElements).Keys <= manager.objectTypeElements.Keys
    ensures !ok ==> Unresolved(g, W.Step(g), c.node)
  {
    ghost var before := manager.objectTypeElements;
    ok := manager.AddObjectTypeElements(g, c.node, c.superType);
    if ok {
      WalkKeepsTable(g, names, c.node, c.superType, before, manager.objectTypeElements);
    }
  }

  /** All walks of a node set, one for each object type that is created. */
  method CreateObjectTypes(manager: W.NodeManager, g: Graph, names: UaNodeId -> string, created: seq<Creation>)
    returns (ok: bool)
    requires TableOk(g, names, manager.objectTypeElements)
    requires forall i | 0 <= i < |created| ::
      created[i].node in g.classes && created[i].superType in SupersOf(g, names, created[i].node)
    modifies manager
    ensures ok ==> TableOk(g, names, manager.objectTypeElements) && AllMet(created, manager.objectTypeElements)
    ensures !ok ==> exists c :: c in created && Unresolved(g, W.Step(g), c.node)
  {
    for i := 0 to |created|
      invariant TableOk(g, names, manager.objectTypeElements) && AllMet(created[..i], manager.objectTypeElements)
    {
      var c := created[i];
      assert created[..i + 1] == created[..i] + [c] && c in created;
      ok := CreateObjectType(manager, g, names, c);
      if !ok {
        return;
      }
    }
    assert created[..|created|] == created;
    ok := true;
  }

  /** In the table, object types are below other elements only as sub types, and each such reference
      shows on both ends. Nodes outside the table, such as folders, may organize object types. */
  ghost predicate SubtypesOnly(g: Graph, names: UaNodeId -> string, elements: W.Elements) {
    forall n, r | n in elements && n in g.references && r in g.references[n] && IsHierarchical(r) && r.isForward &&
      r.target in g.classes && g.classes[r.target] == ObjectType ::
      r.referenceType == HasSubtype && n in SupersOf(g, names, r.target)
  }

  lemma ChildHasSuper(g: Graph, names: UaNodeId -> string, elements: W.Elements, p: UaNodeId, n: UaNodeId)
    requires SubtypesOnly(g, names, elements) && p in elements && n in Children(g, p) && n in g.classes &&
      g.classes[n] == ObjectType
    ensures p in SupersOf(g, names, n)
  {
    var r := ChildReference(g, p, n);
  }

  /** A recorded parent is the one super type that the client browses. */
  lemma ParentIsSuperType(g: Graph, names: UaNodeId -> string, elements: W.Elements, n: UaNodeId)
    requires TableOk(g, names, elements) && n in elements && elements[n].nodeClass == ObjectType
    requires SubtypesOnly(g, names, elements) && |SupersOf(g, names, n)| <= 1
    ensures SupersOf(g, names, n) == [elements[n].parent]
  {
    var p := elements[n].parent;
    assert W.Recorded(g, n, elements);
    assert ParentOk(g, names, elements, n);
    if p !in SupersOf(g, names, n) {
      assert W.HasParent(n, elements) && W.Recorded(g, p, elements);
      ChildHasSuper(g, names, elements, p, n);
    }
  }

  lemma ChildReference(g: Graph, p: UaNodeId, n: UaNodeId) returns (r: Reference)
    requires n in Children(g, p)
    ensures p in g.references && r in g.references[p] && IsHierarchical(r) && r.isForward && r.target == n
  {
    var keep := (r: Reference) => IsHierarchical(r) && r.isForward;
    var kept := Filter(g.references[p], keep);
    var i :| 0 <= i < |kept| && kept[i].target == n;
    r := kept[i];
    assert r in kept;
  }

  // ---- The registered fields ----

  /** A type's references lead to nodes of the class they show, forward to its variables, and by sub
      type references to object types. */
  predicate PlainType(g: Graph, refs: seq<Reference>) {
    forall r | r in refs && IsHierarchical(r) ::
      && (IsVariable(g, r.target) <==> r.targetClass == Variable)
      && (if r.referenceType == HasSubtype then r.targetClass != Variable
          else r.isForward && r.targetClass != ObjectType)
  }

  lemma {:induction false} FilterAppend(refs: seq<Reference>, r: Reference, keep: Reference -> bool)
    ensures Filter(refs + [r], keep) == Filter(refs, keep) + if keep(r) then [r] else []
  {
    if refs == [] {
      assert refs + [r] == [r];
      assert Filter([r], keep) == (if keep(r) then [r] else []) + Filter([], keep);
    } else {
      assert (refs + [r])[1..] == refs[1..] + [r];
      FilterAppend(refs[1..], r, keep);
    }
  }

  /** The variables among the children are the fields the client collects for the type itself. */
  lemma {:induction false} FieldsAreOwn(g: Graph, names: UaNodeId -> string, refs: seq<Reference>)
    requires PlainType(g, refs)
    ensures VariableFields(g, names, TargetsOf(Filter(refs, (r: Reference) => IsHierarchical(r) && r.isForward)))
      == F.OwnFields(ClientReferences(names, refs))
  {
    if refs != [] {
      var n := |refs| - 1;
      var rest, r := refs[..n], refs[n];
      var keep := (r: Reference) => IsHierarchical(r) && r.isForward;
      assert r in refs && forall x | x in rest :: x in refs;
      FieldsAreOwn(g, names, rest);
      assert refs == rest + [r];
      FilterAppend(rest, r, keep);
      OneMoreTarget(g, names, Filter(rest, keep), r, keep(r));
      OneMoreReference(names, rest, r);
    }
  }

  lemma OneMoreTarget(g: Graph, names: UaNodeId -> string, kept: seq<Reference>, r: Reference, add: bool)
    ensures VariableFields(g, names, TargetsOf(kept + if add then [r] else [])) ==
      VariableFields(g, names, TargetsOf(kept)) +
        if add && IsVariable(g, r.target) then [EventField(names(r.target), r.target)] else []
  {
    if add {
      var ts := TargetsOf(kept + [r]);
      assert ts == TargetsOf(kept) + [r.target];
      assert ts[..|ts| - 1] == TargetsOf(kept);
    } else {
      assert kept + [] == kept;
    }
  }

  lemma OneMoreReference(names: UaNodeId -> string, rest: seq<Reference>, r: Reference)
    ensures F.OwnFields(ClientReferences(names, rest + [r])) ==
      F.OwnFields(ClientReferences(names, rest)) +
        if ClientSees(r) && r.referenceType != HasSubtype then [EventField(names(r.target), r.target)] else []
  {
    var before, after := ClientReferences(names, rest), ClientReferences(names, rest + [r]);
    assert (rest + [r])[..|rest|] == rest;
    if ClientSees(r) {
      assert after[..|after| - 1] == before;
    } else {
      assert after == before + [] == before;
    }
  }

  // ---- Client and server ----

  /** The table's keys, each once. */
  ghost predicate Enumerates(order: seq<UaNodeId>, elements: W.Elements) {
    && (forall n :: n in order <==> n in elements)
    && forall i, j | 0 <= i < j < |order| :: order[i] != order[j]
  }

  /** Every event type of the table has one super type at most, and references like `PlainType`. */
  ghost predicate PlainEventTypes(g: Graph, names: UaNodeId -> string, elements: W.Elements,
      rank: (UaNodeId, bool) -> nat)
    requires S.Acyclic(g, rank)
  {
    forall n | n in elements && n in g.references && IsRegistered(g, elements, n, rank) ::
      |SupersOf(g, names, n)| <= 1 && PlainType(g, g.references[n])
  }

  lemma {:induction false} DeclarationsAre(g: Graph, names: UaNodeId -> string, elements: W.Elements,
      order: seq<UaNodeId>, rank: (UaNodeId, bool) -> nat)
    requires S.Acyclic(g, rank) && forall n | n in order :: n in elements
    requires forall i, j | 0 <= i < j < |order| :: order[i] != order[j]
    ensures var ds := Declarations(g, names, elements, order, rank);
      && DistinctTypes(ds)
      && forall d | d in ds :: d.typeId in order && IsRegistered(g, elements, d.typeId, rank)
           && d == DeclarationOf(g, names, elements, d.typeId)
  {
    if order != [] {
      var rest := order[..|order| - 1];
      DeclarationsAre(g, names, elements, rest, rank);
    }
  }

  lemma {:induction false} IsDeclared(g: Graph, names: UaNodeId -> string, elements: W.Elements, order: seq<UaNodeId>,
      n: UaNodeId, rank: (UaNodeId, bool) -> nat)
    requires S.Acyclic(g, rank) && (forall m | m in order :: m in elements)
    requires n in order && IsRegistered(g, elements, n, rank)
    ensures DeclarationOf(g, names, elements, n) in Declarations(g, names, elements, order, rank)
  {
    var last := |order| - 1;
    if n != order[last] {
      IsDeclared(g, names, elements, order[..last], n, rank);
    }
  }

  // ---- Which types are registered ----

  lemma {:induction false} FieldsKeepTypes(r: Registry, xml: UaNodeId -> string, t: UaNodeId, fields: seq<EventField>)
    ensures RegisterFields(r, xml, t, fields).eventTypes == r.eventTypes
  {
    if fields != [] {
      FieldsKeepTypes(r, xml, t, fields[..|fields| - 1]);
    }
  }

  lemma {:induction false} DeclaredTypes(r: Registry, xml: UaNodeId -> string, ds: seq<Declaration>, t: UaNodeId)
    ensures t in RegisterAll(r, xml, ds).eventTypes <==> t in r.eventTypes || Declares(ds, t)
  {
    if ds != [] {
      var n := |ds| - 1;
      var before, d := RegisterAll(r, xml, ds[..n]), ds[n];
      DeclaredTypes(r, xml, ds[..n], t);
      assert ds == ds[..n] + [d];
      DeclaresOneMore(ds[..n], d);
      FieldsKeepTypes(before.(eventTypes := before.eventTypes[d.typeId := d.superType]), xml, d.typeId, d.fields);
    }
  }

  lemma DeclaredIfRegistered(g: Graph, names: UaNodeId -> string, elements: W.Elements, order: seq<UaNodeId>,
      t: UaNodeId, rank: (UaNodeId, bool) -> nat)
    requires S.Acyclic(g, rank) && Enumerates(order, elements)
    ensures Declares(Declarations(g, names, elements, order, rank), t) <==>
      t in elements && IsRegistered(g, elements, t, rank)
  {
    var ds := Declarations(g, names, elements, order, rank);
    DeclarationsAre(g, names, elements, order, rank);
    if i :| 0 <= i < |ds| && ds[i].typeId == t {
      assert ds[i] in ds;
    }
    if t in elements && IsRegistered(g, elements, t, rank) {
      IsDeclared(g, names, elements, order, t, rank);
      var i :| 0 <= i < |ds| && ds[i] == DeclarationOf(g, names, elements, t);
    }
  }

  /** An object type that is generated as an event, or has a sub type or a super type that is. */
  ghost predicate IsEventElement(g: Graph, elements: W.Elements, t: UaNodeId) {
    t in elements && elements[t].nodeClass == ObjectType && (S.FoundVia(g, t, true) || S.FoundVia(g, t, false))
  }

  /** Main result: from an empty registry, the loop registers the object types of the table that are
      generated as events themselves, or have a sub type or a super type that is, and no others. Only
      a type whose search meets a node that cannot be resolved may be left out. */
  lemma RegisteredTypes(g: Graph, names: UaNodeId -> string, elements: W.Elements, order: seq<UaNodeId>,
      xml: UaNodeId -> string, t: UaNodeId, rank: (UaNodeId, bool) -> nat)
    requires S.Acyclic(g, rank) && Enumerates(order, elements)
    ensures var types := RegisterAll(EMPTY, xml, Declarations(g, names, elements, order, rank)).eventTypes;
      && (t in types ==> IsEventElement(g, elements, t))
      && (IsEventElement(g, elements, t) && !S.Broken(g, t, S.Both, rank) ==> t in types)
      && (AllAnswered(g, elements, order, rank) ==> (t in types <==> IsEventElement(g, elements, t)))
  {
    DeclaredTypes(EMPTY, xml, Declarations(g, names, elements, order, rank), t);
    DeclaredIfRegistered(g, names, elements, order, t, rank);
    if t in elements && elements[t].nodeClass == ObjectType {
      S.AnswerIsSearch(g, t, S.Both, rank);
      S.EventTypeMeaning(g, t, rank);
    }
  }

  /** The client browses every registered event type as it was registered. */
  lemma DeclarationsAreShown(g: Graph, names: UaNodeId -> string, elements: W.Elements, order: seq<UaNodeId>,
      rank: (UaNodeId, bool) -> nat)
    requires S.Acyclic(g, rank) && TableOk(g, names, elements) && Enumerates(order, elements)
    requires SubtypesOnly(g, names, elements) && PlainEventTypes(g, names, elements, rank)
    ensures F.Shows(ClientTypes(g, names), Declarations(g, names, elements, order, rank))
  {
    DeclarationsAre(g, names, elements, order, rank);
    forall d | d in Declarations(g, names, elements, order, rank)
      ensures F.ShowsType(ClientTypes(g, names), d)
    {
      var n := d.typeId;
      assert W.Recorded(g, n, elements);
      ParentIsSuperType(g, names, elements, n);
      FieldsAreOwn(g, names, g.references[n]);
    }
  }

  /** Main result: for the event types of a table that the walks have filled, client and server
      agree on every registered name, if object types are related by sub type references only. */
  lemma TableAgrees(g: Graph, names: UaNodeId -> string, elements: W.Elements, order: seq<UaNodeId>,
      xml: UaNodeId -> string, t: UaNodeId, name: string, rank: UaNodeId -> nat, searchRank: (UaNodeId, bool) -> nat)
    requires S.Acyclic(g, searchRank) && TableOk(g, names, elements) && Enumerates(order, elements)
    requires SubtypesOnly(g, names, elements) && PlainEventTypes(g, names, elements, searchRank)
    requires Injective(xml) && F.Acyclic(ClientTypes(g, names), rank)
    requires forall d | d in Declarations(g, names, elements, order, searchRank) :: DistinctNames(d.fields)
    requires name in RegisterAll(EMPTY, xml, Declarations(g, names, elements, order, searchRank)).indexes
    ensures var r := RegisterAll(EMPTY, xml, Declarations(g, names, elements, order, searchRank));
      Acyclic(r.eventTypes, rank) && F.Agrees(ClientTypes(g, names), r, xml, t, name, rank)
  {
    var types, ds := ClientTypes(g, names), Declarations(g, names, elements, order, searchRank);
    var r := RegisterAll(EMPTY, xml, ds);
    DeclarationsAre(g, names, elements, order, searchRank);
    DeclarationsAreShown(g, names, elements, order, searchRank);
    RegisterAllMeaning(xml, ds);
    F.RegisteredAcyclic(types, ds, r, xml, rank);
    F.ShownChain(types, ds, r, xml, t, rank);
    F.ClientAndServerAgree(types, ds, xml, t, name, rank);
  }

  // ---- Where they disagree ----

  /** Object types do not have two children of one name that are variables. */
  predicate DistinctVariables(g: Graph, names: UaNodeId -> string, elements: W.Elements) {
    forall n | n in elements && elements[n].nodeClass == ObjectType ::
      DistinctNames(VariableFields(g, names, elements[n].children))
  }

  lemma DistinctDeclared(g: Graph, names: UaNodeId -> string, elements: W.Elements, order: seq<UaNodeId>,
      rank: (UaNodeId, bool) -> nat)
    requires S.Acyclic(g, rank) && Enumerates(order, elements) && DistinctVariables(g, names, elements)
    ensures forall d | d in Declarations(g, names, elements, order, rank) :: DistinctNames(d.fields)
  {
    DeclarationsAre(g, names, elements, order, rank);
  }

  /** The name of a variable of a registered type has an index. */
  lemma DeclaredNameHasIndex(g: Graph, names: UaNodeId -> string, elements: W.Elements, order: seq<UaNodeId>,
      xml: UaNodeId -> string, n: UaNodeId, name: string, rank: (UaNodeId, bool) -> nat)
    requires S.Acyclic(g, rank) && Enumerates(order, elements) && DistinctVariables(g, names, elements)
    requires Injective(xml) && n in elements && IsRegistered(g, elements, n, rank)
    requires Pick(VariableFields(g, names, elements[n].children), name).Some?
    ensures name in RegisterAll(EMPTY, xml, Declarations(g, names, elements, order, rank)).indexes
  {
    var ds, d := Declarations(g, names, elements, order, rank), DeclarationOf(g, names, elements, n);
    DeclarationsAre(g, names, elements, order, rank);
    DistinctDeclared(g, names, elements, order, rank);
    IsDeclared(g, names, elements, order, n, rank);
    RegisterAllMeaning(xml, ds);
    var i :| 0 <= i < |ds| && ds[i] == d;
    assert FieldOf(RegisterAll(EMPTY, xml, ds), xml, ds[i].typeId, name) == Pick(ds[i].fields, name);
  }

  /** Recorded parents of object types are of lower rank. */
  predicate ParentsLower(elements: W.Elements, rank: UaNodeId -> nat) {
    forall n | n in elements && elements[n].nodeClass == ObjectType :: rank(elements[n].parent) < rank(n)
  }

  lemma ParentsAcyclic(g: Graph, names: UaNodeId -> string, elements: W.Elements, order: seq<UaNodeId>,
      xml: UaNodeId -> string, rank: UaNodeId -> nat, searchRank: (UaNodeId, bool) -> nat)
    requires S.Acyclic(g, searchRank) && Enumerates(order, elements) && DistinctVariables(g, names, elements)
    requires Injective(xml) && ParentsLower(elements, rank)
    ensures Acyclic(RegisterAll(EMPTY, xml, Declarations(g, names, elements, order, searchRank)).eventTypes, rank)
  {
    var ds := Declarations(g, names, elements, order, searchRank);
    DeclarationsAre(g, names, elements, order, searchRank);
    DistinctDeclared(g, names, elements, order, searchRank);
    RegisterAllMeaning(xml, ds);
    var r := RegisterAll(EMPTY, xml, ds);
    forall t | t in r.eventTypes
      ensures rank(r.eventTypes[t]) < rank(t)
    {
      var i :| 0 <= i < |ds| && ds[i].typeId == t;
      assert ds[i] in ds;
    }
  }

  /** A name that the recorded parent of an event type and its browsed super type both declare, each
      for a node of its own, while the type itself does not. */
  ghost predicate OverriddenTwice(g: Graph, names: UaNodeId -> string, elements: W.Elements, n: UaNodeId, s: UaNodeId,
      name: string, rank: (UaNodeId, bool) -> nat)
    requires S.Acyclic(g, rank)
  {
    && n in elements && n in g.references && IsRegistered(g, elements, n, rank)
    && elements[n].parent in elements && IsRegistered(g, elements, elements[n].parent, rank)
    && SupersOf(g, names, n) == [s] && s in g.references
    && var own := VariableFields(g, names, elements[n].children);
       var below := VariableFields(g, names, elements[elements[n].parent].children);
       var browsed := F.OwnFields(ClientReferences(names, g.references[s]));
       && own == F.OwnFields(ClientReferences(names, g.references[n])) && Pick(own, name) == None
       && Pick(below, name).Some? && Pick(browsed, name).Some? && Pick(below, name) != Pick(browsed, name)
  }

  /** On such a name client and server disagree. */
  lemma TableDisagrees(g: Graph, names: UaNodeId -> string, elements: W.Elements, order: seq<UaNodeId>,
      xml: UaNodeId -> string, n: UaNodeId, s: UaNodeId, name: string, rank: UaNodeId -> nat,
      searchRank: (UaNodeId, bool) -> nat)
    requires S.Acyclic(g, searchRank) && Enumerates(order, elements) && DistinctVariables(g, names, elements)
    requires Injective(xml) && F.Acyclic(ClientTypes(g, names), rank) && ParentsLower(elements, rank)
    requires OverriddenTwice(g, names, elements, n, s, name, searchRank)
    ensures var r := RegisterAll(EMPTY, xml, Declarations(g, names, elements, order, searchRank));
      && name in r.indexes && Acyclic(r.eventTypes, rank)
      && !F.Agrees(ClientTypes(g, names), r, xml, n, name, rank)
  {
    var ds, p := Declarations(g, names, elements, order, searchRank), elements[n].parent;
    DeclarationsAre(g, names, elements, order, searchRank);
    DistinctDeclared(g, names, elements, order, searchRank);
    IsDeclared(g, names, elements, order, n, searchRank);
    IsDeclared(g, names, elements, order, p, searchRank);
    DeclaredNameHasIndex(g, names, elements, order, xml, p, name, searchRank);
    ParentsAcyclic(g, names, elements, order, xml, rank, searchRank);
    RegisterAllMeaning(xml, ds);
    F.OverriddenDifferently(ClientTypes(g, names), ds, RegisterAll(EMPTY, xml, ds), xml,
      DeclarationOf(g, names, elements, n), DeclarationOf(g, names, elements, p), s, name, rank);
  }
}
