/** An address space with two walks: one after which client and server agree on event fields, and
    one after which they do not. */
module EventRegistrationExample {
  import opened Wrappers
  import opened NodeIds
  import opened AddressSpace
  import opened EventTypeRegistryClass
  import opened EventRegistration
  import F = EventFieldCollection
  import W = ObjectTypeWalk
  import S = EventTypeSearch

  // types of the standard: the folder of the types, and the base of all event types
  const FOLDER := UaNodeId(0, Numeric(88))
  const BASE := UaNodeId(0, Numeric(2041))
  // vendor types: `OUTER` organizes `INNER`, which is a sub type of `SUPER`
  const OUTER := UaNodeId(1, Numeric(1))
  const INNER := UaNodeId(1, Numeric(2))
  const SUPER := UaNodeId(1, Numeric(3))
  // a variable of `OUTER` and one of `SUPER`
  const OWN := UaNodeId(1, Numeric(4))
  const FIELD := UaNodeId(1, Numeric(5))

  const MARK := Reference(FOLDER, ObjectType, GeneratesEvent, false)
  const UP_BASE := Reference(BASE, ObjectType, HasSubtype, false)
  const UP_SUPER := Reference(SUPER, ObjectType, HasSubtype, false)
  const SUBTYPE := Reference(INNER, ObjectType, HasSubtype, true)
  const ORGANIZES := Reference(INNER, ObjectType, OtherHierarchical, true)
  const ORGANIZES_BASE := Reference(BASE, ObjectType, OtherHierarchical, true)
  const TO_OWN := Reference(OWN, Variable, OtherHierarchical, true)
  const TO_FIELD := Reference(FIELD, Variable, OtherHierarchical, true)

  function Example(): Graph {
    Graph(
      map[FOLDER := Object, BASE := ObjectType, OUTER := ObjectType, INNER := ObjectType, SUPER := ObjectType,
        OWN := Variable, FIELD := Variable],
      map[FOLDER := [ORGANIZES_BASE], OUTER := [MARK, UP_BASE, ORGANIZES, TO_OWN], INNER := [MARK, UP_SUPER],
        SUPER := [MARK, UP_BASE, SUBTYPE, TO_FIELD], OWN := [], FIELD := []])
  }

  // the table after a walk from `SUPER`, after one from `OUTER`, and after both in that order
  const BELOW_SUPER: W.Elements := map[
    SUPER := W.ObjectTypeElement(ObjectType, BASE, [INNER, FIELD]),
    INNER := W.ObjectTypeElement(ObjectType, SUPER, []),
    FIELD := W.ObjectTypeElement(Variable, SUPER, [])]
  const BELOW_OUTER: W.Elements := map[
    OUTER := W.ObjectTypeElement(ObjectType, BASE, [INNER, OWN]),
    INNER := W.ObjectTypeElement(ObjectType, OUTER, []),
    OWN := W.ObjectTypeElement(Variable, OUTER, [])]
  const BELOW_BOTH: W.Elements := BELOW_OUTER[
    SUPER := W.ObjectTypeElement(ObjectType, BASE, [INNER, FIELD])][
    FIELD := W.ObjectTypeElement(Variable, SUPER, [])]

  function Rank(): UaNodeId -> nat {
    (n: UaNodeId) => if n == INNER then 2 else if n == SUPER || n == OUTER then 1 else 0
  }

  function SearchRank(): (UaNodeId, bool) -> nat {
    (n: UaNodeId, down: bool) =>
      if n == SUPER then 1 else if down then 0 else if n == INNER then 2 else if n == OUTER then 1 else 0
  }

  // ---- What is below and above the nodes ----

  lemma FilterNone(refs: seq<Reference>, keep: Reference -> bool)
    requires forall r | r in refs :: !keep(r)
    ensures Filter(refs, keep) == []
  {
    if Filter(refs, keep) != [] {
      assert Filter(refs, keep)[0] in Filter(refs, keep);
    }
  }

  lemma LastTwoKept(before: seq<Reference>, c: Reference, d: Reference, keep: Reference -> bool)
    requires (forall r | r in before :: !keep(r)) && keep(c) && keep(d)
    ensures Filter(before + [c] + [d], keep) == [c, d]
  {
    FilterNone(before, keep);
    FilterAppend(before, c, keep);
    FilterAppend(before + [c], d, keep);
    assert [] + [c] + [d] == [c, d];
  }

  lemma OuterChildren()
    ensures Children(Example(), OUTER) == [INNER, OWN]
  {
    LastTwoKept([MARK, UP_BASE], ORGANIZES, TO_OWN, (r: Reference) => IsHierarchical(r) && r.isForward);
    assert [MARK, UP_BASE] + [ORGANIZES] + [TO_OWN] == [MARK, UP_BASE, ORGANIZES, TO_OWN];
  }

  lemma SuperChildren()
    ensures Children(Example(), SUPER) == [INNER, FIELD]
  {
    LastTwoKept([MARK, UP_BASE], SUBTYPE, TO_FIELD, (r: Reference) => IsHierarchical(r) && r.isForward);
    assert [MARK, UP_BASE] + [SUBTYPE] + [TO_FIELD] == [MARK, UP_BASE, SUBTYPE, TO_FIELD];
  }

  lemma NoOtherChildren()
    ensures Children(Example(), INNER) == [] && Children(Example(), OWN) == [] && Children(Example(), FIELD) == []
  {
    FilterNone([MARK, UP_SUPER], (r: Reference) => IsHierarchical(r) && r.isForward);
  }

  predicate IsSuperReference(r: Reference) {
    ClientSees(r) && r.referenceType == HasSubtype && !r.isForward
  }

  lemma OneMoreSuper(names: UaNodeId -> string, rest: seq<Reference>, r: Reference)
    ensures F.SuperTypes(ClientReferences(names, rest + [r])) ==
      F.SuperTypes(ClientReferences(names, rest)) + if IsSuperReference(r) then [r.target] else []
  {
    var before, after := ClientReferences(names, rest), ClientReferences(names, rest + [r]);
    assert (rest + [r])[..|rest|] == rest;
    if ClientSees(r) {
      assert after[..|after| - 1] == before;
    } else {
      assert after == before + [] == before;
    }
  }

  lemma {:induction false} SecondIsSuper(names: UaNodeId -> string, a: Reference, b: Reference, after: seq<Reference>)
    requires !IsSuperReference(a) && IsSuperReference(b) && forall r | r in after :: !IsSuperReference(r)
    ensures F.SuperTypes(ClientReferences(names, [a, b] + after)) == [b.target]
  {
    if after == [] {
      OneMoreSuper(names, [], a);
      OneMoreSuper(names, [a], b);
      assert [] + [a] == [a] && [a] + [b] == [a, b] == [a, b] + after;
    } else {
      var rest, r := after[..|after| - 1], after[|after| - 1];
      assert [a, b] + after == ([a, b] + rest) + [r] && r in after && !IsSuperReference(r);
      SecondIsSuper(names, a, b, rest);
      OneMoreSuper(names, [a, b] + rest, r);
    }
  }

  lemma SupersAre(names: UaNodeId -> string)
    ensures SupersOf(Example(), names, OUTER) == [BASE] && SupersOf(Example(), names, SUPER) == [BASE]
    ensures SupersOf(Example(), names, INNER) == [SUPER]
  {
    SuperOfSuper(names);
    SuperOfOuter(names);
    SuperOfInner(names);
  }

  lemma SuperOfOuter(names: UaNodeId -> string)
    ensures SupersOf(Example(), names, OUTER) == [BASE]
  {
    SecondIsSuper(names, MARK, UP_BASE, [ORGANIZES, TO_OWN]);
    assert [MARK, UP_BASE] + [ORGANIZES, TO_OWN] == [MARK, UP_BASE, ORGANIZES, TO_OWN];
  }

  lemma SuperOfSuper(names: UaNodeId -> string)
    ensures SupersOf(Example(), names, SUPER) == [BASE]
  {
    SecondIsSuper(names, MARK, UP_BASE, [SUBTYPE, TO_FIELD]);
    assert [MARK, UP_BASE] + [SUBTYPE, TO_FIELD] == [MARK, UP_BASE, SUBTYPE, TO_FIELD];
  }

  lemma SuperOfInner(names: UaNodeId -> string)
    ensures SupersOf(Example(), names, INNER) == [SUPER]
  {
    SecondIsSuper(names, MARK, UP_SUPER, []);
    assert [MARK, UP_SUPER] + [] == [MARK, UP_SUPER];
  }

  // ---- The walks ----

  lemma WalkFromSuper(names: UaNodeId -> string)
    ensures W.Walked(Example(), SUPER, BASE, map[], BELOW_SUPER) && TableOk(Example(), names, BELOW_SUPER)
  {
    var g := Example();
    SuperChildren();
    NoOtherChildren();
    SupersAre(names);
    assert W.Recorded(g, SUPER, BELOW_SUPER) && W.Recorded(g, INNER, BELOW_SUPER) && W.Recorded(g, FIELD, BELOW_SUPER);
    WalkKeepsTable(g, names, SUPER, BASE, map[], BELOW_SUPER);
  }

  lemma WalkFromOuter(names: UaNodeId -> string)
    ensures W.Walked(Example(), OUTER, BASE, map[], BELOW_OUTER) && TableOk(Example(), names, BELOW_OUTER)
  {
    var g := Example();
    OuterChildren();
    NoOtherChildren();
    SupersAre(names);
    assert W.Recorded(g, OUTER, BELOW_OUTER) && W.Recorded(g, INNER, BELOW_OUTER) && W.Recorded(g, OWN, BELOW_OUTER);
    WalkKeepsTable(g, names, OUTER, BASE, map[], BELOW_OUTER);
  }

  lemma WalkFromBoth(names: UaNodeId -> string)
    requires TableOk(Example(), names, BELOW_OUTER)
    ensures W.Walked(Example(), SUPER, BASE, BELOW_OUTER, BELOW_BOTH) && TableOk(Example(), names, BELOW_BOTH)
  {
    SuperChildren();
    NoOtherChildren();
    SupersAre(names);
    assert W.Recorded(Example(), SUPER, BELOW_BOTH) && W.Recorded(Example(), FIELD, BELOW_BOTH);
    WalkKeepsTable(Example(), names, SUPER, BASE, BELOW_OUTER, BELOW_BOTH);
  }

  // ---- The registration ----

  lemma KeptFirst(refs: seq<Reference>, keep: Reference -> bool)
    requires refs != [] && keep(refs[0])
    ensures Filter(refs, keep) != [] && Filter(refs, keep)[0] == refs[0]
  {
  }

  predicate IsExampleType(n: UaNodeId) {
    n == OUTER || n == INNER || n == SUPER
  }

  lemma MarksComeFirst(n: UaNodeId)
    requires IsExampleType(n)
    ensures TypeReferences(Example(), n) != [] && TypeReferences(Example(), n)[0] == MARK
  {
    KeptFirst(Example().references[n], (r: Reference) => r.targetClass == ObjectType);
  }

  lemma SearchIsAcyclic()
    ensures S.Acyclic(Example(), SearchRank())
  {
    forall n, r | r in TypeReferences(Example(), n) && r.referenceType == HasSubtype
      ensures SearchRank()(r.target, r.isForward) < SearchRank()(n, r.isForward)
    {
      assert r in Example().references[n];
      assert (n == OUTER && r == UP_BASE) || (n == INNER && r == UP_SUPER) ||
        (n == SUPER && (r == UP_BASE || r == SUBTYPE));
    }
  }

  lemma MarkedFirst(g: Graph, n: UaNodeId, rank: (UaNodeId, bool) -> nat)
    requires S.Acyclic(g, rank) && n in g.references && TypeReferences(g, n) != []
    requires S.IsEventMark(TypeReferences(g, n)[0])
    ensures S.Answer(g, n, S.Both, rank) == Success(true)
  {
    S.AnswerStep(g, n, S.Both, 0, rank);
  }

  lemma IsEvent(n: UaNodeId, elements: W.Elements)
    requires S.Acyclic(Example(), SearchRank()) && IsExampleType(n)
    requires n in elements && elements[n].nodeClass == ObjectType
    ensures IsRegistered(Example(), elements, n, SearchRank())
  {
    MarksComeFirst(n);
    MarkedFirst(Example(), n, SearchRank());
  }

  // ---- What the client sees ----

  lemma ClientIsAcyclic(names: UaNodeId -> string)
    ensures F.Acyclic(ClientTypes(Example(), names), Rank())
  {
    forall t, s | t in ClientTypes(Example(), names) && s in F.SuperTypes(ClientTypes(Example(), names)[t])
      ensures Rank()(s) < Rank()(t)
    {
      SupersAreLower(names, t, s);
    }
  }

  lemma SupersAreLower(names: UaNodeId -> string, t: UaNodeId, s: UaNodeId)
    requires t in Example().references && s in SupersOf(Example(), names, t)
    ensures Rank()(s) < Rank()(t)
  {
    NoOtherSupers(names);
    SourceNode(t);
    if t == INNER {
      SuperOfInner(names);
    } else if t == OUTER {
      SuperOfOuter(names);
    } else {
      SuperOfSuper(names);
    }
  }

  lemma SourceNode(t: UaNodeId)
    requires t in Example().references
    ensures IsExampleType(t) || t == FOLDER || t == OWN || t == FIELD
  {
  }

  lemma NoOtherSupers(names: UaNodeId -> string)
    ensures SupersOf(Example(), names, FOLDER) == []
    ensures SupersOf(Example(), names, OWN) == [] && SupersOf(Example(), names, FIELD) == []
  {
    FolderHasNoSuper(names);
    VariablesHaveNoSuper(names);
  }

  lemma FolderHasNoSuper(names: UaNodeId -> string)
    ensures SupersOf(Example(), names, FOLDER) == []
  {
    NoSupers(names, [ORGANIZES_BASE]);
  }

  lemma VariablesHaveNoSuper(names: UaNodeId -> string)
    ensures SupersOf(Example(), names, OWN) == [] && SupersOf(Example(), names, FIELD) == []
  {
    assert ClientReferences(names, []) == [];
  }

  lemma NoSupers(names: UaNodeId -> string, refs: seq<Reference>)
    requires |refs| == 1 && !IsSuperReference(refs[0])
    ensures F.SuperTypes(ClientReferences(names, refs)) == []
  {
    OneMoreSuper(names, [], refs[0]);
    assert [] + [refs[0]] == refs;
  }

  lemma OwnVariables(names: UaNodeId -> string)
    ensures var types := ClientTypes(Example(), names);
      F.OwnFields(types[SUPER]) == [EventField(names(FIELD), FIELD)] && F.OwnFields(types[INNER]) == []
    ensures VariableFields(Example(), names, [INNER, FIELD]) == [EventField(names(FIELD), FIELD)]
    ensures VariableFields(Example(), names, [INNER, OWN]) == [EventField(names(OWN), OWN)]
  {
    var g := Example();
    SuperChildren();
    NoOtherChildren();
    SecondIsVariable(g, names, INNER, FIELD);
    SecondIsVariable(g, names, INNER, OWN);
    FieldsAreOwn(g, names, g.references[SUPER]);
    FieldsAreOwn(g, names, g.references[INNER]);
  }

  lemma SecondIsVariable(g: Graph, names: UaNodeId -> string, a: UaNodeId, b: UaNodeId)
    requires !IsVariable(g, a) && IsVariable(g, b)
    ensures VariableFields(g, names, [a, b]) == [EventField(names(b), b)]
  {
    assert [a, b][..1] == [a] && [a][..0] == [];
    assert VariableFields(g, names, [a]) == [] + [];
  }

  lemma SuperVariables(names: UaNodeId -> string)
    ensures DistinctVariables(Example(), names, BELOW_SUPER)
  {
    OwnVariables(names);
  }

  lemma BothVariables(names: UaNodeId -> string)
    ensures DistinctVariables(Example(), names, BELOW_BOTH)
  {
    OwnVariables(names);
  }

  // ---- Agreement below `SUPER` ----

  const SUPER_ORDER := [SUPER, INNER, FIELD]

  lemma SuperOrder()
    ensures Enumerates(SUPER_ORDER, BELOW_SUPER)
  {
  }

  lemma SuperSubtypesOnly(names: UaNodeId -> string)
    ensures SubtypesOnly(Example(), names, BELOW_SUPER)
  {
    SupersAre(names);
    forall n, r | n in BELOW_SUPER && r in Example().references[n] && r.isForward && IsHierarchical(r) &&
      r.target in Example().classes && Example().classes[r.target] == ObjectType
      ensures n == SUPER && r == SUBTYPE
    {
    }
  }

  lemma SuperIsPlain(names: UaNodeId -> string)
    requires S.Acyclic(Example(), SearchRank())
    ensures PlainEventTypes(Example(), names, BELOW_SUPER, SearchRank())
  {
    forall n | n in BELOW_SUPER && n in Example().references && IsRegistered(Example(), BELOW_SUPER, n, SearchRank())
      ensures |SupersOf(Example(), names, n)| <= 1 && PlainType(Example(), Example().references[n])
    {
      NoFieldBelow();
      OneOfTwo(n);
      PlainReferences();
      if n == SUPER {
        SuperOfSuper(names);
      } else {
        SuperOfInner(names);
      }
    }
  }

  lemma OneOfTwo(n: UaNodeId)
    requires n in BELOW_SUPER && n != FIELD
    ensures n == SUPER || n == INNER
  {
  }

  lemma NoFieldBelow()
    requires S.Acyclic(Example(), SearchRank())
    ensures !IsRegistered(Example(), BELOW_SUPER, FIELD, SearchRank())
  {
  }

  lemma PlainReferences()
    ensures PlainType(Example(), [MARK, UP_BASE, SUBTYPE, TO_FIELD]) && PlainType(Example(), [MARK, UP_SUPER])
  {
  }

  /** After the walk from `SUPER` alone all conditions of `TableAgrees` hold, although a folder of
      the standard and `OUTER` organize object types, and the variable's name is registered. */
  lemma AgreementApplies(names: UaNodeId -> string, xml: UaNodeId -> string)
    requires Injective(xml)
    ensures S.Acyclic(Example(), SearchRank()) && F.Acyclic(ClientTypes(Example(), names), Rank())
    ensures TableOk(Example(), names, BELOW_SUPER) && Enumerates(SUPER_ORDER, BELOW_SUPER)
    ensures SubtypesOnly(Example(), names, BELOW_SUPER)
    ensures PlainEventTypes(Example(), names, BELOW_SUPER, SearchRank())
    ensures var ds := Declarations(Example(), names, BELOW_SUPER, SUPER_ORDER, SearchRank());
      && (forall d | d in ds :: DistinctNames(d.fields))
      && names(FIELD) in RegisterAll(EMPTY, xml, ds).indexes
  {
    SearchIsAcyclic();
    ClientIsAcyclic(names);
    WalkFromSuper(names);
    SuperOrder();
    SuperSubtypesOnly(names);
    SuperIsPlain(names);
    SuperVariables(names);
    OwnVariables(names);
    IsEvent(SUPER, BELOW_SUPER);
    DistinctDeclared(Example(), names, BELOW_SUPER, SUPER_ORDER, SearchRank());
    DeclaredNameHasIndex(Example(), names, BELOW_SUPER, SUPER_ORDER, xml, SUPER, names(FIELD), SearchRank());
  }

  // ---- Disagreement below `OUTER` ----

  /** A type that a walk first meets below another type, which merely organizes it, is recorded with
      that type as parent, also after a walk from its super type. */
  lemma OtherParentRecorded(names: UaNodeId -> string)
    ensures W.Walked(Example(), OUTER, BASE, map[], BELOW_OUTER)
    ensures W.Walked(Example(), SUPER, BASE, BELOW_OUTER, BELOW_BOTH) && TableOk(Example(), names, BELOW_BOTH)
    ensures SupersOf(Example(), names, INNER) == [SUPER] && BELOW_BOTH[INNER].parent == OUTER
  {
    WalkFromOuter(names);
    WalkFromBoth(names);
    SupersAre(names);
  }

  const BOTH_ORDER := [OUTER, INNER, SUPER, OWN, FIELD]

  lemma BothTable()
    ensures Enumerates(BOTH_ORDER, BELOW_BOTH) && ParentsLower(BELOW_BOTH, Rank())
  {
  }

  lemma BothEntries()
    ensures INNER in BELOW_BOTH && BELOW_BOTH[INNER] == W.ObjectTypeElement(ObjectType, OUTER, [])
    ensures OUTER in BELOW_BOTH && BELOW_BOTH[OUTER] == W.ObjectTypeElement(ObjectType, BASE, [INNER, OWN])
  {
  }

  lemma InnerIsOverridden(names: UaNodeId -> string)
    requires S.Acyclic(Example(), SearchRank()) && names(OWN) == names(FIELD)
    ensures OverriddenTwice(Example(), names, BELOW_BOTH, INNER, SUPER, names(FIELD), SearchRank())
  {
    BothEntries();
    OwnVariables(names);
    SuperOfInner(names);
    IsEvent(OUTER, BELOW_BOTH);
    IsEvent(INNER, BELOW_BOTH);
    var name := names(FIELD);
    var own, below := EventField(name, OWN), EventField(name, FIELD);
    assert Pick([own], name) == Some(OWN) && Pick([below], name) == Some(FIELD) && Pick([], name) == None;
  }

  /** Then client and server disagree on the name that `OUTER` and `SUPER` both declare. */
  lemma Disagreement(names: UaNodeId -> string, xml: UaNodeId -> string)
    requires Injective(xml) && names(OWN) == names(FIELD)
    ensures S.Acyclic(Example(), SearchRank()) && F.Acyclic(ClientTypes(Example(), names), Rank())
    ensures Enumerates(BOTH_ORDER, BELOW_BOTH)
    ensures var r := RegisterAll(EMPTY, xml, Declarations(Example(), names, BELOW_BOTH, BOTH_ORDER, SearchRank()));
      && names(FIELD) in r.indexes && Acyclic(r.eventTypes, Rank())
      && !F.Agrees(ClientTypes(Example(), names), r, xml, INNER, names(FIELD), Rank())
  {
    SearchIsAcyclic();
    ClientIsAcyclic(names);
    BothTable();
    BothVariables(names);
    InnerIsOverridden(names);
    TableDisagrees(Example(), names, BELOW_BOTH, BOTH_ORDER, xml, INNER, SUPER, names(FIELD), Rank(), SearchRank());
  }
}
