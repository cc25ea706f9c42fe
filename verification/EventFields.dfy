/** Event fields as the server registers them and as the client browses them. */
module EventTypeRegistryClass {
  import opened Wrappers
  import opened NodeIds
  import Decimals

  /** `getKey`: the XML form of the event type, a colon, and the field index. */
  function Key(typeXml: string, index: nat): string {
    typeXml + ":" + Decimals.Digits(index)
  }

  /** Keys are as unique as the XML forms of the types, even where those contain colons. */
  lemma KeyInjective(a: string, i: nat, b: string, j: nat)
    requires Key(a, i) == Key(b, j)
    ensures a == b && i == j
  {
    var s, di, dj := Key(a, i), Decimals.Digits(i), Decimals.Digits(j);
    assert |s| == |a| + 1 + |di| == |b| + 1 + |dj|;
    assert s[|a|] == ':' && s[|b|] == ':';
    assert forall k | |a| < k < |s| :: s[k] == di[k - |a| - 1];
    assert forall k | |b| < k < |s| :: s[k] == dj[k - |b| - 1];
    assert |a| == |b|;
    assert s[..|a|] == a && s[..|b|] == b;
    assert s[|a| + 1..] == di && s[|b| + 1..] == dj;
    Decimals.ValueOfDigits(i);
    Decimals.ValueOfDigits(j);
  }

  ghost predicate Injective(xml: UaNodeId -> string) {
    forall t, u :: xml(t) == xml(u) ==> t == u
  }

  /** A variable of an event type. */
  datatype EventField = EventField(name: string, nodeId: UaNodeId)

  /** An event type with its super type and its variables, as the node manager has collected them. */
  datatype Declaration = Declaration(typeId: UaNodeId, superType: UaNodeId, fields: seq<EventField>)

  predicate DistinctNames(fields: seq<EventField>) {
    forall i, j | 0 <= i < j < |fields| :: fields[i].name != fields[j].name
  }

  /** The node of the first field with the given name. */
  function Pick(fields: seq<EventField>, name: string): Option<UaNodeId> {
    if fields == [] then None
    else if fields[0].name == name then Some(fields[0].nodeId)
    else Pick(fields[1..], name)
  }

  lemma {:induction false} PickAppend(a: seq<EventField>, b: seq<EventField>, name: string)
    ensures Pick(a + b, name) == if Pick(a, name).Some? then Pick(a, name) else Pick(b, name)
  {
    if a == [] {
      assert a + b == b;
    } else {
      assert (a + b)[1..] == a[1..] + b;
      PickAppend(a[1..], b, name);
    }
  }

  lemma {:induction false} PickNone(fields: seq<EventField>, name: string)
    ensures Pick(fields, name) == None <==> forall i | 0 <= i < |fields| :: fields[i].name != name
  {
    if fields != [] {
      PickNone(fields[1..], name);
    }
  }

  /** What the registry knows: super types, fields by key, and the index of each field name. */
  datatype Registry = Registry(eventTypes: map<UaNodeId, UaNodeId>, eventFields: map<string, UaNodeId>,
      indexes: map<string, nat>)

  const EMPTY := Registry(map[], map[], map[])

  function WithIndex(indexes: map<string, nat>, name: string): map<string, nat> {
    if name in indexes then indexes else indexes[name := |indexes|]
  }

  function RegisterField(r: Registry, xml: UaNodeId -> string, t: UaNodeId, f: EventField): Registry {
    var indexes := WithIndex(r.indexes, f.name);
    Registry(r.eventTypes, r.eventFields[Key(xml(t), indexes[f.name]) := f.nodeId], indexes)
  }

  function RegisterFields(r: Registry, xml: UaNodeId -> string, t: UaNodeId, fields: seq<EventField>): Registry {
    if fields == [] then r
    else RegisterField(RegisterFields(r, xml, t, fields[..|fields| - 1]), xml, t, fields[|fields| - 1])
  }

  function RegisterType(r: Registry, xml: UaNodeId -> string, d: Declaration): Registry {
    RegisterFields(r.(eventTypes := r.eventTypes[d.typeId := d.superType]), xml, d.typeId, d.fields)
  }

  function RegisterAll(r: Registry, xml: UaNodeId -> string, ds: seq<Declaration>): Registry {
    if ds == [] then r
    else RegisterType(RegisterAll(r, xml, ds[..|ds| - 1]), xml, ds[|ds| - 1])
  }

  /** The field a type has under a name, by its own registration. */
  function FieldOf(r: Registry, xml: UaNodeId -> string, t: UaNodeId, name: string): Option<UaNodeId> {
    if name in r.indexes && Key(xml(t), r.indexes[name]) in r.eventFields then
      Some(r.eventFields[Key(xml(t), r.indexes[name])])
    else None
  }

  /** Names have distinct indexes, and only indexes that were given out occur in keys. */
  ghost predicate Valid(r: Registry, xml: UaNodeId -> string) {
    && Injective(xml)
    && (forall n | n in r.indexes :: r.indexes[n] < |r.indexes|)
    && (forall m, n | m in r.indexes && n in r.indexes && r.indexes[m] == r.indexes[n] :: m == n)
    && forall t, i: nat :: Key(xml(t), i) in r.eventFields ==> i < |r.indexes|
  }

  lemma WithIndexMeaning(indexes: map<string, nat>, name: string)
    ensures |indexes| <= |WithIndex(indexes, name)|
    ensures name !in indexes ==> |WithIndex(indexes, name)| == |indexes| + 1
  {
    if name !in indexes {
      assert WithIndex(indexes, name).Keys == indexes.Keys + {name};
    }
  }

  lemma RegisterFieldValid(r: Registry, xml: UaNodeId -> string, t: UaNodeId, f: EventField)
    requires Valid(r, xml)
    ensures Valid(RegisterField(r, xml, t, f), xml)
  {
    var r' := RegisterField(r, xml, t, f);
    WithIndexMeaning(r.indexes, f.name);
    forall u, i: nat | Key(xml(u), i) in r'.eventFields
      ensures i < |r'.indexes|
    {
      if Key(xml(u), i) == Key(xml(t), r'.indexes[f.name]) {
        KeyInjective(xml(u), i, xml(t), r'.indexes[f.name]);
      }
    }
  }

  lemma RegisterFieldMeaning(r: Registry, xml: UaNodeId -> string, t: UaNodeId, f: EventField)
    requires Valid(r, xml)
    ensures forall u, name ::
      FieldOf(RegisterField(r, xml, t, f), xml, u, name) ==
      (if u == t && name == f.name then Some(f.nodeId) else FieldOf(r, xml, u, name))
  {
    var r' := RegisterField(r, xml, t, f);
    forall u, name
      ensures FieldOf(r', xml, u, name) == if u == t && name == f.name then Some(f.nodeId) else FieldOf(r, xml, u, name)
    {
      if name in r'.indexes && Key(xml(u), r'.indexes[name]) == Key(xml(t), r'.indexes[f.name]) {
        KeyInjective(xml(u), r'.indexes[name], xml(t), r'.indexes[f.name]);
      }
    }
  }

  lemma PickLast(fields: seq<EventField>, name: string)
    requires fields != [] && DistinctNames(fields)
    ensures var n := |fields| - 1;
      Pick(fields, name) == if name == fields[n].name then Some(fields[n].nodeId) else Pick(fields[..n], name)
  {
    var n := |fields| - 1;
    assert fields == fields[..n] + [fields[n]];
    PickAppend(fields[..n], [fields[n]], name);
    PickNone(fields[..n], fields[n].name);
  }

  lemma {:induction false} RegisterFieldsMeaning(r: Registry, xml: UaNodeId -> string, t: UaNodeId,
      fields: seq<EventField>)
    requires Valid(r, xml) && DistinctNames(fields)
    ensures Valid(RegisterFields(r, xml, t, fields), xml)
    ensures RegisterFields(r, xml, t, fields).eventTypes == r.eventTypes
    ensures forall u, name ::
      FieldOf(RegisterFields(r, xml, t, fields), xml, u, name) ==
      (if u == t && Pick(fields, name).Some? then Pick(fields, name) else FieldOf(r, xml, u, name))
  {
    if fields != [] {
      var n := |fields| - 1;
      var rest := fields[..n];
      RegisterFieldsMeaning(r, xml, t, rest);
      RegisterFieldValid(RegisterFields(r, xml, t, rest), xml, t, fields[n]);
      RegisterFieldMeaning(RegisterFields(r, xml, t, rest), xml, t, fields[n]);
      forall name
        ensures Pick(fields, name) == if name == fields[n].name then Some(fields[n].nodeId) else Pick(rest, name)
      {
        PickLast(fields, name);
      }
    }
  }

  predicate DistinctTypes(ds: seq<Declaration>) {
    forall i, j | 0 <= i < j < |ds| :: ds[i].typeId != ds[j].typeId
  }

  predicate Declares(ds: seq<Declaration>, t: UaNodeId) {
    exists i :: 0 <= i < |ds| && ds[i].typeId == t
  }

  /** The registry that the declarations describe. */
  ghost predicate Describes(ds: seq<Declaration>, r: Registry, xml: UaNodeId -> string) {
    && (forall t :: t in r.eventTypes <==> Declares(ds, t))
    && (forall i | 0 <= i < |ds| :: r.eventTypes[ds[i].typeId] == ds[i].superType)
    && (forall i, name | 0 <= i < |ds| :: FieldOf(r, xml, ds[i].typeId, name) == Pick(ds[i].fields, name))
  }

  lemma RegisterTypeMeaning(r: Registry, xml: UaNodeId -> string, d: Declaration)
    requires Valid(r, xml) && DistinctNames(d.fields)
    ensures Valid(RegisterType(r, xml, d), xml)
    ensures RegisterType(r, xml, d).eventTypes == r.eventTypes[d.typeId := d.superType]
    ensures forall u, name ::
      FieldOf(RegisterType(r, xml, d), xml, u, name) ==
      (if u == d.typeId && Pick(d.fields, name).Some? then Pick(d.fields, name) else FieldOf(r, xml, u, name))
  {
    var typed := r.(eventTypes := r.eventTypes[d.typeId := d.superType]);
    assert forall u, name :: FieldOf(typed, xml, u, name) == FieldOf(r, xml, u, name);
    RegisterFieldsMeaning(typed, xml, d.typeId, d.fields);
  }

  lemma DeclaresOneMore(ds: seq<Declaration>, d: Declaration)
    ensures forall t :: Declares(ds + [d], t) <==> t == d.typeId || Declares(ds, t)
  {
    forall t
      ensures Declares(ds + [d], t) <==> t == d.typeId || Declares(ds, t)
    {
      if i :| 0 <= i < |ds| && ds[i].typeId == t {
        assert (ds + [d])[i].typeId == t;
      }
      if t == d.typeId {
        assert (ds + [d])[|ds|].typeId == t;
      }
      if i :| 0 <= i < |ds + [d]| && (ds + [d])[i].typeId == t {
        assert i < |ds| ==> ds[i].typeId == t;
      }
    }
  }

  /** One more declaration of a new type is described as well. */
  lemma DescribesOneMore(ds: seq<Declaration>, d: Declaration, r: Registry, xml: UaNodeId -> string)
    requires Valid(r, xml) && Describes(ds, r, xml) && DistinctNames(d.fields) && !Declares(ds, d.typeId)
    requires forall t, name :: !Declares(ds, t) ==> FieldOf(r, xml, t, name) == None
    ensures Describes(ds + [d], RegisterType(r, xml, d), xml)
    ensures forall t, name :: !Declares(ds + [d], t) ==> FieldOf(RegisterType(r, xml, d), xml, t, name) == None
  {
    RegisterTypeMeaning(r, xml, d);
    DeclaresOneMore(ds, d);
    assert forall i | 0 <= i < |ds| :: ds[i].typeId != d.typeId;
  }

  lemma NotYetDeclared(ds: seq<Declaration>)
    requires ds != [] && DistinctTypes(ds)
    ensures DistinctTypes(ds[..|ds| - 1]) && !Declares(ds[..|ds| - 1], ds[|ds| - 1].typeId)
  {
  }

  /** The registration loop leaves a registry that the declarations describe. */
  lemma {:induction false} RegisterAllMeaning(xml: UaNodeId -> string, ds: seq<Declaration>)
    requires Injective(xml) && DistinctTypes(ds) && forall d | d in ds :: DistinctNames(d.fields)
    ensures Valid(RegisterAll(EMPTY, xml, ds), xml)
    ensures Describes(ds, RegisterAll(EMPTY, xml, ds), xml)
    ensures forall t, name :: !Declares(ds, t) ==> FieldOf(RegisterAll(EMPTY, xml, ds), xml, t, name) == None
  {
    if ds != [] {
      var n := |ds| - 1;
      var rest, d := ds[..n], ds[n];
      assert ds == rest + [d];
      assert d in ds && forall x | x in rest :: x in ds;
      RegisterAllMeaning(xml, rest);
      var r := RegisterAll(EMPTY, xml, rest);
      assert RegisterAll(EMPTY, xml, ds) == RegisterType(r, xml, d);
      NotYetDeclared(ds);
      RegisterTypeMeaning(r, xml, d);
      DescribesOneMore(rest, d, r, xml);
    }
  }

  // ---- Lookup ----

  ghost predicate Acyclic(eventTypes: map<UaNodeId, UaNodeId>, rank: UaNodeId -> nat) {
    forall t | t in eventTypes :: rank(eventTypes[t]) < rank(t)
  }

  /** The nearest registration of a field index up the registered super types. */
  ghost function Lookup(r: Registry, xml: UaNodeId -> string, t: UaNodeId, index: nat,
      rank: UaNodeId -> nat): Option<UaNodeId>
    requires Acyclic(r.eventTypes, rank)
    decreases rank(t)
  {
    if Key(xml(t), index) in r.eventFields then Some(r.eventFields[Key(xml(t), index)])
    else if t in r.eventTypes then Lookup(r, xml, r.eventTypes[t], index, rank)
    else None
  }

  class EventTypeRegistry {
    const xml: UaNodeId -> string
    // type => super type
    var eventTypes: map<UaNodeId, UaNodeId>
    // key => nodeId
    var eventFields: map<string, UaNodeId>
    // field name => index, kept by the SDK's event manager
    var indexes: map<string, nat>

    ghost function Now(): Registry
      reads this
    {
      Registry(eventTypes, eventFields, indexes)
    }

    constructor (xml: UaNodeId -> string)
      ensures Now() == EMPTY && this.xml == xml
    {
      this.xml := xml;
      eventTypes, eventFields, indexes := map[], map[], map[];
    }

    method RegisterEventType(superType: UaNodeId, newType: UaNodeId)
      modifies this
      ensures Now() == old(Now()).(eventTypes := old(eventTypes)[newType := superType])
    {
      eventTypes := eventTypes[newType := superType];
    }

    method RegisterEventField(eventType: UaNodeId, fieldNodeId: UaNodeId, name: string)
      modifies this
      ensures Now() == RegisterField(old(Now()), xml, eventType, EventField(name, fieldNodeId))
    {
      if name !in indexes {
        indexes := indexes[name := |indexes|];
      }
      eventFields := eventFields[Key(xml(eventType), indexes[name]) := fieldNodeId];
    }

    method GetEventFieldNodeId(eventTypeId: UaNodeId, index: nat, ghost rank: UaNodeId -> nat)
      returns (node: Option<UaNodeId>)
      requires Acyclic(eventTypes, rank)
      ensures node == Lookup(Now(), xml, eventTypeId, index, rank)
    {
      var typeId := eventTypeId;
      while Key(xml(typeId), index) !in eventFields
        invariant Lookup(Now(), xml, typeId, index, rank) == Lookup(Now(), xml, eventTypeId, index, rank)
        decreases rank(typeId)
      {
        if typeId !in eventTypes {
          return None;
        }
        typeId := eventTypes[typeId];
      }
      return Some(eventFields[Key(xml(typeId), index)]);
    }
  }
}

/** The event fields of a type as the client collects them, and their agreement with the server. */
module EventFieldCollection {
  import opened Wrappers
  import opened NodeIds
  import opened EventTypeRegistryClass

  /** A reference of an event type to a variable or an object type. */
  datatype BrowseReference = BrowseReference(target: UaNodeId, browseName: string, isSubtype: bool, isForward: bool)

  /** The types that can be browsed. */
  type TypeSpace = map<UaNodeId, seq<BrowseReference>>

  /** The fields of a type itself: every reference that is not a sub type reference. */
  function OwnFields(refs: seq<BrowseReference>): seq<EventField> {
    if refs == [] then []
    else
      var r := refs[|refs| - 1];
      OwnFields(refs[..|refs| - 1]) + if r.isSubtype then [] else [EventField(r.browseName, r.target)]
  }

  function SuperTypes(refs: seq<BrowseReference>): seq<UaNodeId> {
    if refs == [] then []
    else
      var r := refs[|refs| - 1];
      SuperTypes(refs[..|refs| - 1]) + if r.isSubtype && !r.isForward then [r.target] else []
  }

  ghost predicate Acyclic(types: TypeSpace, rank: UaNodeId -> nat) {
    forall t, s | t in types && s in SuperTypes(types[t]) :: rank(s) < rank(t)
  }

  /** A field is appended unless its name is already in the list. */
  function AddField(acc: seq<EventField>, f: EventField): seq<EventField> {
    if Pick(acc, f.name).Some? then acc else acc + [f]
  }

  function AddFields(acc: seq<EventField>, fields: seq<EventField>): seq<EventField> {
    if fields == [] then acc else AddField(AddFields(acc, fields[..|fields| - 1]), fields[|fields| - 1])
  }

  /** The list after a type and its super types; a type that cannot be browsed adds nothing. */
  ghost function Collect(types: TypeSpace, t: UaNodeId, acc: seq<EventField>, rank: UaNodeId -> nat): seq<EventField>
    requires Acyclic(types, rank)
    decreases rank(t), 1, 0
  {
    if t !in types then acc
    else CollectSupers(types, t, AddFields(acc, OwnFields(types[t])), |SuperTypes(types[t])|, rank)
  }

  ghost function CollectSupers(types: TypeSpace, t: UaNodeId, acc: seq<EventField>, n: nat,
      rank: UaNodeId -> nat): seq<EventField>
    requires Acyclic(types, rank) && t in types && n <= |SuperTypes(types[t])|
    decreases rank(t), 0, n
  {
    if n == 0 then acc
    else
      Collect(types, SuperTypes(types[t])[n - 1], CollectSupers(types, t, acc, n - 1, rank), rank)
  }

  /** The nearest declaration of a name: the type's own, else that of the first super type that has one. */
  ghost function Nearest(types: TypeSpace, t: UaNodeId, name: string, rank: UaNodeId -> nat): Option<UaNodeId>
    requires Acyclic(types, rank)
    decreases rank(t), 1, 0
  {
    if t !in types then None
    else if Pick(OwnFields(types[t]), name).Some? then Pick(OwnFields(types[t]), name)
    else NearestSuper(types, t, name, |SuperTypes(types[t])|, rank)
  }

  ghost function NearestSuper(types: TypeSpace, t: UaNodeId, name: string, n: nat,
      rank: UaNodeId -> nat): Option<UaNodeId>
    requires Acyclic(types, rank) && t in types && n <= |SuperTypes(types[t])|
    decreases rank(t), 0, n
  {
    if n == 0 then None
    else
      var before := NearestSuper(types, t, name, n - 1, rank);
      if before.Some? then before else Nearest(types, SuperTypes(types[t])[n - 1], name, rank)
  }

  /** `getEventFields`: the vector grows by the fields of the type, then by those of its super types;
      a super type that cannot be browsed is skipped. */
  method GetEventFields(types: TypeSpace, t: UaNodeId, acc: seq<EventField>, ghost rank: UaNodeId -> nat)
    returns (fields: seq<EventField>, thrown: bool)
    requires Acyclic(types, rank)
    ensures fields == Collect(types, t, acc, rank)
    ensures thrown <==> t !in types
    decreases rank(t), 1
  {
    if t !in types {
      return acc, true;
    }
    fields := AddOwnFields(types[t], acc);
    fields := AddSuperFields(types, t, fields, rank);
    thrown := false;
  }

  /** The first loop: variables of the type. */
  method AddOwnFields(refs: seq<BrowseReference>, acc: seq<EventField>) returns (fields: seq<EventField>)
    ensures fields == AddFields(acc, OwnFields(refs))
  {
    fields := acc;
    for i := 0 to |refs|
      invariant fields == AddFields(acc, OwnFields(refs[..i]))
    {
      assert refs[..i + 1][..i] == refs[..i];
      if !refs[i].isSubtype {
        var f := EventField(refs[i].browseName, refs[i].target);
        AddOne(acc, OwnFields(refs[..i]), f);
        if Pick(fields, f.name).None? {
          fields := fields + [f];
        }
      } else {
        assert OwnFields(refs[..i + 1]) == OwnFields(refs[..i]);
      }
    }
    assert refs[..|refs|] == refs;
  }

  lemma AddOne(acc: seq<EventField>, fields: seq<EventField>, f: EventField)
    ensures AddFields(acc, fields + [f]) == AddField(AddFields(acc, fields), f)
  {
    assert (fields + [f])[..|fields|] == fields;
  }

  /** The second loop: super types. */
  method AddSuperFields(types: TypeSpace, t: UaNodeId, acc: seq<EventField>, ghost rank: UaNodeId -> nat)
    returns (fields: seq<EventField>)
    requires Acyclic(types, rank) && t in types
    ensures fields == CollectSupers(types, t, acc, |SuperTypes(types[t])|, rank)
    decreases rank(t), 0
  {
    fields := acc;
    var refs := types[t];
    ghost var n := 0;
    for i := 0 to |refs|
      invariant n == |SuperTypes(refs[..i])| <= |SuperTypes(refs)|
      invariant fields == CollectSupers(types, t, acc, n, rank)
    {
      NextSuperType(refs, i);
      if n < |SuperTypes(refs)| {
        NextCollected(types, t, acc, n, rank);
      }
      if refs[i].isSubtype && !refs[i].isForward {
        var skipped: bool;
        fields, skipped := GetEventFields(types, refs[i].target, fields, rank);
        n := n + 1;
      }
    }
    assert refs[..|refs|] == refs;
  }

  lemma NextCollected(types: TypeSpace, t: UaNodeId, acc: seq<EventField>, n: nat, rank: UaNodeId -> nat)
    requires Acyclic(types, rank) && t in types && n < |SuperTypes(types[t])|
    ensures var s := SuperTypes(types[t])[n];
      && rank(s) < rank(t)
      && CollectSupers(types, t, acc, n + 1, rank) == Collect(types, s, CollectSupers(types, t, acc, n, rank), rank)
  {
    assert SuperTypes(types[t])[n] in SuperTypes(types[t]);
  }

  /** The super type that the loop meets next. */
  lemma NextSuperType(refs: seq<BrowseReference>, i: nat)
    requires i < |refs|
    ensures |SuperTypes(refs[..i + 1])| <= |SuperTypes(refs)|
    ensures var n := |SuperTypes(refs[..i])|;
      if refs[i].isSubtype && !refs[i].isForward then
        && |SuperTypes(refs[..i + 1])| == n + 1
        && SuperTypes(refs)[n] == refs[i].target && refs[i].target in SuperTypes(refs)
      else |SuperTypes(refs[..i + 1])| == n
  {
    assert refs[..i + 1][..i] == refs[..i];
    SuperTypesPrefix(refs, i + 1);
    if refs[i].isSubtype && !refs[i].isForward {
      var n := |SuperTypes(refs[..i])|;
      assert SuperTypes(refs[..i + 1])[n] == refs[i].target;
      assert SuperTypes(refs)[n] == refs[i].target;
    }
  }

  lemma {:induction false} SuperTypesPrefix(refs: seq<BrowseReference>, i: nat)
    requires i <= |refs|
    ensures SuperTypes(refs[..i]) <= SuperTypes(refs)
    decreases |refs|
  {
    if i < |refs| {
      SuperTypesPrefix(refs[..|refs| - 1], i);
      assert refs[..|refs| - 1][..i] == refs[..i];
    } else {
      assert refs[..i] == refs;
    }
  }

  // ---- What is collected ----

  lemma {:induction false} AddFieldsMeaning(acc: seq<EventField>, fields: seq<EventField>, name: string)
    ensures Pick(AddFields(acc, fields), name) ==
      if Pick(acc, name).Some? then Pick(acc, name) else Pick(fields, name)
  {
    if fields != [] {
      var n := |fields| - 1;
      AddFieldsMeaning(acc, fields[..n], name);
      assert fields == fields[..n] + [fields[n]];
      PickAppend(fields[..n], [fields[n]], name);
      PickAppend(AddFields(acc, fields[..n]), [fields[n]], name);
    }
  }

  lemma {:induction false} AddFieldsDistinct(acc: seq<EventField>, fields: seq<EventField>)
    requires DistinctNames(acc)
    ensures DistinctNames(AddFields(acc, fields))
  {
    if fields != [] {
      var n := |fields| - 1;
      AddFieldsDistinct(acc, fields[..n]);
      PickNone(AddFields(acc, fields[..n]), fields[n].name);
    }
  }

  /** Main result: whatever is collected first wins, and of the rest each name stands for its nearest
      declaration up the super types. */
  lemma {:induction false} CollectedIsNearest(types: TypeSpace, t: UaNodeId, acc: seq<EventField>, name: string,
      rank: UaNodeId -> nat)
    requires Acyclic(types, rank)
    ensures Pick(Collect(types, t, acc, rank), name) ==
      if Pick(acc, name).Some? then Pick(acc, name) else Nearest(types, t, name, rank)
    decreases rank(t), 1, 0
  {
    if t in types {
      AddFieldsMeaning(acc, OwnFields(types[t]), name);
      CollectedSupersNearest(types, t, AddFields(acc, OwnFields(types[t])), |SuperTypes(types[t])|, name, rank);
    }
  }

  lemma {:induction false} CollectedSupersNearest(types: TypeSpace, t: UaNodeId, acc: seq<EventField>, n: nat,
      name: string, rank: UaNodeId -> nat)
    requires Acyclic(types, rank) && t in types && n <= |SuperTypes(types[t])|
    ensures Pick(CollectSupers(types, t, acc, n, rank), name) ==
      if Pick(acc, name).Some? then Pick(acc, name) else NearestSuper(types, t, name, n, rank)
    decreases rank(t), 0, n
  {
    if n > 0 {
      CollectedSupersNearest(types, t, acc, n - 1, name, rank);
      CollectedIsNearest(types, SuperTypes(types[t])[n - 1], CollectSupers(types, t, acc, n - 1, rank), name, rank);
    }
  }

  /** Main result: no name occurs twice in the collected list. */
  lemma {:induction false} CollectedDistinct(types: TypeSpace, t: UaNodeId, acc: seq<EventField>, rank: UaNodeId -> nat)
    requires Acyclic(types, rank) && DistinctNames(acc)
    ensures DistinctNames(Collect(types, t, acc, rank))
    decreases rank(t), 1, 0
  {
    if t in types {
      AddFieldsDistinct(acc, OwnFields(types[t]));
      CollectedSupersDistinct(types, t, AddFields(acc, OwnFields(types[t])), |SuperTypes(types[t])|, rank);
    }
  }

  lemma {:induction false} CollectedSupersDistinct(types: TypeSpace, t: UaNodeId, acc: seq<EventField>, n: nat,
      rank: UaNodeId -> nat)
    requires Acyclic(types, rank) && t in types && n <= |SuperTypes(types[t])| && DistinctNames(acc)
    ensures DistinctNames(CollectSupers(types, t, acc, n, rank))
    decreases rank(t), 0, n
  {
    if n > 0 {
      CollectedSupersDistinct(types, t, acc, n - 1, rank);
      CollectedDistinct(types, SuperTypes(types[t])[n - 1], CollectSupers(types, t, acc, n - 1, rank), rank);
    }
  }

  // ---- Agreement with the registry ----

  /** The client browses a type as it was registered, with one super type. */
  predicate ShowsType(types: TypeSpace, d: Declaration) {
    d.typeId in types && OwnFields(types[d.typeId]) == d.fields && SuperTypes(types[d.typeId]) == [d.superType]
  }

  predicate Shows(types: TypeSpace, ds: seq<Declaration>) {
    forall d | d in ds :: ShowsType(types, d)
  }

  /** The client browses a type and those up its registered super types as they were registered. */
  ghost predicate ShowsChain(types: TypeSpace, ds: seq<Declaration>, r: Registry, t: UaNodeId, rank: UaNodeId -> nat)
    requires EventTypeRegistryClass.Acyclic(r.eventTypes, rank)
    decreases rank(t)
  {
    t in r.eventTypes ==>
      && (exists d :: d in ds && d.typeId == t && ShowsType(types, d))
      && ShowsChain(types, ds, r, r.eventTypes[t], rank)
  }

  lemma {:induction false} ShownChain(types: TypeSpace, ds: seq<Declaration>, r: Registry, xml: UaNodeId -> string,
      t: UaNodeId, rank: UaNodeId -> nat)
    requires EventTypeRegistryClass.Acyclic(r.eventTypes, rank) && Shows(types, ds) && Describes(ds, r, xml)
    ensures ShowsChain(types, ds, r, t, rank)
    decreases rank(t)
  {
    if t in r.eventTypes {
      var i :| 0 <= i < |ds| && ds[i].typeId == t;
      assert ds[i] in ds;
      ShownChain(types, ds, r, xml, r.eventTypes[t], rank);
    }
  }

  /** The first type up the registered super types that is not registered itself. */
  ghost function FirstUnregistered(r: Registry, t: UaNodeId, rank: UaNodeId -> nat): UaNodeId
    requires EventTypeRegistryClass.Acyclic(r.eventTypes, rank)
    decreases rank(t)
  {
    if t in r.eventTypes then FirstUnregistered(r, r.eventTypes[t], rank) else t
  }

  lemma RegisteredAcyclic(types: TypeSpace, ds: seq<Declaration>, r: Registry, xml: UaNodeId -> string,
      rank: UaNodeId -> nat)
    requires Acyclic(types, rank) && Shows(types, ds) && Describes(ds, r, xml)
    ensures EventTypeRegistryClass.Acyclic(r.eventTypes, rank)
  {
    forall t | t in r.eventTypes
      ensures rank(r.eventTypes[t]) < rank(t)
    {
      var i :| 0 <= i < |ds| && ds[i].typeId == t;
      assert ds[i] in ds && ds[i].superType in SuperTypes(types[t]);
    }
  }

  /** Main result (client and server agree on overriding): for a registered name, the node the client
      finds is the one the server's registry answers; where the registry has no answer, the name is
      not declared in the registered part of the chain, and the client looks on above it. This holds
      for each type whose own registered chain is the one the client browses. */
  lemma {:induction false} Agreement(types: TypeSpace, ds: seq<Declaration>, r: Registry, xml: UaNodeId -> string,
      t: UaNodeId, name: string, rank: UaNodeId -> nat)
    requires Acyclic(types, rank) && Describes(ds, r, xml)
    requires EventTypeRegistryClass.Acyclic(r.eventTypes, rank) && ShowsChain(types, ds, r, t, rank)
    requires forall u :: u !in r.eventTypes ==> FieldOf(r, xml, u, name) == None
    requires name in r.indexes
    ensures var answer := Lookup(r, xml, t, r.indexes[name], rank);
      Nearest(types, t, name, rank) ==
        if answer.Some? then answer else Nearest(types, FirstUnregistered(r, t, rank), name, rank)
    decreases rank(t)
  {
    assert FieldOf(r, xml, t, name).Some? <==> Key(xml(t), r.indexes[name]) in r.eventFields;
    if t in r.eventTypes {
      var d :| d in ds && d.typeId == t && ShowsType(types, d);
      var i :| 0 <= i < |ds| && ds[i] == d;
      assert FieldOf(r, xml, t, name) == Pick(d.fields, name) && r.eventTypes[t] == d.superType;
      if Pick(d.fields, name).None? {
        Agreement(types, ds, r, xml, r.eventTypes[t], name, rank);
        OneSuper(types, t, d.superType, name, rank);
      }
    }
  }

  lemma OneSuper(types: TypeSpace, t: UaNodeId, s: UaNodeId, name: string, rank: UaNodeId -> nat)
    requires Acyclic(types, rank) && t in types && SuperTypes(types[t]) == [s]
    requires Pick(OwnFields(types[t]), name).None?
    ensures rank(s) < rank(t) && Nearest(types, t, name, rank) == Nearest(types, s, name, rank)
  {
    assert s in SuperTypes(types[t]);
    assert NearestSuper(types, t, name, 0, rank) == None;
    assert NearestSuper(types, t, name, 1, rank) == Nearest(types, s, name, rank);
  }

  /** The two implementations side by side, from the registration of the declarations on. */
  lemma ClientAndServerAgree(types: TypeSpace, ds: seq<Declaration>, xml: UaNodeId -> string,
      t: UaNodeId, name: string, rank: UaNodeId -> nat)
    requires Injective(xml) && DistinctTypes(ds) && forall d | d in ds :: DistinctNames(d.fields)
    requires Acyclic(types, rank)
    requires name in RegisterAll(EMPTY, xml, ds).indexes
    requires EventTypeRegistryClass.Acyclic(RegisterAll(EMPTY, xml, ds).eventTypes, rank)
    requires ShowsChain(types, ds, RegisterAll(EMPTY, xml, ds), t, rank)
    ensures Agrees(types, RegisterAll(EMPTY, xml, ds), xml, t, name, rank)
  {
    RegisterAllMeaning(xml, ds);
    Agreement(types, ds, RegisterAll(EMPTY, xml, ds), xml, t, name, rank);
    CollectedIsNearest(types, t, [], name, rank);
  }

  /** What the server makes of a name: the registry's answer, or else what is declared above the
      registered types. */
  ghost function ServerView(types: TypeSpace, r: Registry, xml: UaNodeId -> string, t: UaNodeId, name: string,
      rank: UaNodeId -> nat): Option<UaNodeId>
    requires Acyclic(types, rank) && EventTypeRegistryClass.Acyclic(r.eventTypes, rank) && name in r.indexes
  {
    var answer := Lookup(r, xml, t, r.indexes[name], rank);
    if answer.Some? then answer else Nearest(types, FirstUnregistered(r, t, rank), name, rank)
  }

  /** The client collects for a name what the server makes of it. */
  ghost predicate Agrees(types: TypeSpace, r: Registry, xml: UaNodeId -> string, t: UaNodeId, name: string,
      rank: UaNodeId -> nat)
    requires Acyclic(types, rank) && EventTypeRegistryClass.Acyclic(r.eventTypes, rank) && name in r.indexes
  {
    Pick(Collect(types, t, [], rank), name) == ServerView(types, r, xml, t, name, rank)
  }

  /** One registration: its own field, or else what the server makes of the name for its parent. */
  lemma ServerViewStep(types: TypeSpace, ds: seq<Declaration>, r: Registry, xml: UaNodeId -> string,
      d: Declaration, name: string, rank: UaNodeId -> nat)
    requires Acyclic(types, rank) && Describes(ds, r, xml) && d in ds
    requires EventTypeRegistryClass.Acyclic(r.eventTypes, rank) && name in r.indexes
    ensures ServerView(types, r, xml, d.typeId, name, rank) ==
      if Pick(d.fields, name).Some? then Pick(d.fields, name)
      else ServerView(types, r, xml, d.superType, name, rank)
  {
    var t := d.typeId;
    var i :| 0 <= i < |ds| && ds[i] == d;
    assert t in r.eventTypes && r.eventTypes[t] == d.superType;
    assert FieldOf(r, xml, t, name) == Pick(d.fields, name);
    assert FieldOf(r, xml, t, name).Some? <==> Key(xml(t), r.indexes[name]) in r.eventFields;
  }

  /** The exact condition for a type that is registered under another parent than its one super
      type: client and server agree on the names that the type declares itself, and on those for
      which the client finds from the super type what the server makes of them for the parent. If
      they agree on the parent, that is what the client finds from there. */
  lemma OtherParentExactly(types: TypeSpace, ds: seq<Declaration>, r: Registry, xml: UaNodeId -> string,
      d: Declaration, s: UaNodeId, name: string, rank: UaNodeId -> nat)
    requires Acyclic(types, rank) && Describes(ds, r, xml)
    requires EventTypeRegistryClass.Acyclic(r.eventTypes, rank) && name in r.indexes
    requires d in ds && d.typeId in types && OwnFields(types[d.typeId]) == d.fields &&
      SuperTypes(types[d.typeId]) == [s]
    ensures Agrees(types, r, xml, d.typeId, name, rank) <==>
      || Pick(d.fields, name).Some?
      || Nearest(types, s, name, rank) == ServerView(types, r, xml, d.superType, name, rank)
    ensures Agrees(types, r, xml, d.superType, name, rank) ==>
      ServerView(types, r, xml, d.superType, name, rank) == Nearest(types, d.superType, name, rank)
  {
    ServerViewStep(types, ds, r, xml, d, name, rank);
    CollectedIsNearest(types, d.typeId, [], name, rank);
    CollectedIsNearest(types, d.superType, [], name, rank);
    if Pick(d.fields, name).None? {
      OneSuper(types, d.typeId, s, name, rank);
    }
  }

  /** So they disagree on a name that parent and super type both declare, each for a node of its own. */
  lemma OverriddenDifferently(types: TypeSpace, ds: seq<Declaration>, r: Registry, xml: UaNodeId -> string,
      d: Declaration, p: Declaration, s: UaNodeId, name: string, rank: UaNodeId -> nat)
    requires Acyclic(types, rank) && Describes(ds, r, xml)
    requires EventTypeRegistryClass.Acyclic(r.eventTypes, rank) && name in r.indexes
    requires d in ds && d.typeId in types && OwnFields(types[d.typeId]) == d.fields &&
      SuperTypes(types[d.typeId]) == [s]
    requires p in ds && p.typeId == d.superType && s in types && Pick(d.fields, name) == None
    requires Pick(p.fields, name).Some? && Pick(OwnFields(types[s]), name).Some?
    requires Pick(p.fields, name) != Pick(OwnFields(types[s]), name)
    ensures !Agrees(types, r, xml, d.typeId, name, rank)
  {
    OtherParentExactly(types, ds, r, xml, d, s, name, rank);
    ServerViewStep(types, ds, r, xml, p, name, rank);
  }
}
