/** The cache between the converter and the server's type information. */
module CachedConverterCallbackClass {
  import opened Wrappers
  import opened NodeIds
  import opened UaValues
  import opened Reachability

  predicate SubMap<K, V(==)>(a: map<K, V>, b: map<K, V>) {
    forall k | k in a :: k in b && a[k] == b[k]
  }

  /** One set of type information is part of another. */
  predicate PartOf(a: TypeEnv, b: TypeEnv) {
    SubMap(a.superTypes, b.superTypes) && SubMap(a.definitions, b.definitions)
  }

  const NULL_ID := UaNodeId(0, Numeric(0))

  /** The base type that preloading accepts: the last super type, if it is not the null id. */
  predicate HasBase(env: TypeEnv, t: UaNodeId) {
    t in env.superTypes && |env.superTypes[t]| > 0 && env.superTypes[t][|env.superTypes[t]| - 1] != NULL_ID
  }

  function Base(env: TypeEnv, t: UaNodeId): UaNodeId
    requires HasBase(env, t)
  {
    env.superTypes[t][|env.superTypes[t]| - 1]
  }

  /** A vendor type that is converted as a structure, by its definition. */
  predicate IsVendorStructure(env: TypeEnv, t: UaNodeId) {
    t.ns != 0 && t in env.definitions && HasBase(env, t) && IsStructured(Base(env, t))
  }

  /** The fields of a ranked vendor structure are of types of lower rank. */
  ghost predicate Acyclic(env: TypeEnv, rank: Ranking) {
    forall t, f | rank(t).Some? && IsVendorStructure(env, t) && f in env.definitions[t].children ::
      Lower(rank, f.typeId, t)
  }

  /** Everything below a ranked type is known: its super types and, of a structure, its definition
      and what is below its fields. */
  ghost predicate Loaded(env: TypeEnv, t: UaNodeId, rank: Ranking)
    requires Acyclic(env, rank)
    decreases Height(rank, t)
  {
    && rank(t).Some?
    && (t.ns == 0 ||
        (&& HasBase(env, t)
         && (IsStructured(Base(env, t)) ==>
               t in env.definitions && forall f | f in env.definitions[t].children :: Loaded(env, f.typeId, rank))))
  }

  lemma {:induction false} LoadedMonotone(a: TypeEnv, b: TypeEnv, t: UaNodeId, rank: Ranking)
    requires Acyclic(a, rank) && Acyclic(b, rank) && PartOf(a, b) && Loaded(a, t, rank)
    ensures Loaded(b, t, rank)
    decreases Height(rank, t)
  {
    if t.ns != 0 && IsStructured(Base(a, t)) {
      forall f | f in b.definitions[t].children
        ensures Loaded(b, f.typeId, rank)
      {
        LoadedMonotone(a, b, f.typeId, rank);
      }
    }
  }

  /** What is loaded for a vendor type, in terms of its fields. */
  lemma LoadedVendorType(env: TypeEnv, t: UaNodeId, rank: Ranking)
    requires Acyclic(env, rank) && rank(t).Some? && t.ns != 0
    ensures Loaded(env, t, rank) <==>
      && HasBase(env, t)
      && (IsStructured(Base(env, t)) ==> t in env.definitions && AllLoaded(env, env.definitions[t].children, rank))
  {
  }

  /** From a vendor structure to the types of its fields. */
  ghost function FieldStep(env: TypeEnv): (UaNodeId, UaNodeId) -> bool {
    (t: UaNodeId, s: UaNodeId) =>
      IsVendorStructure(env, t) && exists f :: f in env.definitions[t].children && f.typeId == s
  }

  /** What is asked for a single type is known. */
  predicate KnownHere(env: TypeEnv, t: UaNodeId) {
    t.ns != 0 ==>
      && BuildInType(env, t).Success? && BuildInType(env, t).value != UaNodeId(0, Numeric(0))
      && (IsStructured(BuildInType(env, t).value) ==> t in env.definitions)
  }

  /** A type is loaded exactly if all types are known that are met going down the fields of vendor
      structures. */
  lemma {:induction false} LoadedIsKnownBelow(env: TypeEnv, t: UaNodeId, rank: Ranking)
    requires Acyclic(env, rank) && rank(t).Some?
    ensures Loaded(env, t, rank) <==> forall s | Reaches(FieldStep(env), t, s) :: KnownHere(env, s)
    decreases Height(rank, t)
  {
    if Loaded(env, t, rank) {
      forall s | Reaches(FieldStep(env), t, s)
        ensures KnownHere(env, s)
      {
        LoadedBelow(env, t, s, rank);
      }
    }
    if forall s | Reaches(FieldStep(env), t, s) :: KnownHere(env, s) {
      ReachesSelf(FieldStep(env), t);
      if IsVendorStructure(env, t) {
        forall f | f in env.definitions[t].children
          ensures Loaded(env, f.typeId, rank)
        {
          assert FieldStep(env)(t, f.typeId);
          forall s | Reaches(FieldStep(env), f.typeId, s)
            ensures KnownHere(env, s)
          {
            ReachesStep(FieldStep(env), t, f.typeId, s);
          }
          LoadedIsKnownBelow(env, f.typeId, rank);
        }
      }
    }
  }

  lemma LoadedBelow(env: TypeEnv, t: UaNodeId, s: UaNodeId, rank: Ranking)
    requires Acyclic(env, rank) && Loaded(env, t, rank) && Reaches(FieldStep(env), t, s)
    ensures KnownHere(env, s)
  {
    var loaded: UaNodeId -> bool := (x: UaNodeId) => Loaded(env, x, rank);
    ClosedReach(FieldStep(env), loaded, t, s);
  }

  lemma PartAcyclic(a: TypeEnv, b: TypeEnv, rank: Ranking)
    requires PartOf(a, b) && Acyclic(b, rank)
    ensures Acyclic(a, rank)
  {
    assert forall t | IsVendorStructure(a, t) :: IsVendorStructure(b, t) && a.definitions[t] == b.definitions[t];
  }

  ghost predicate AllLoaded(env: TypeEnv, children: seq<Field>, rank: Ranking)
    requires Acyclic(env, rank)
  {
    forall f | f in children :: Loaded(env, f.typeId, rank)
  }

  lemma AllLoadedMonotone(a: TypeEnv, b: TypeEnv, children: seq<Field>, rank: Ranking)
    requires Acyclic(a, rank) && Acyclic(b, rank) && PartOf(a, b) && AllLoaded(a, children, rank)
    ensures AllLoaded(b, children, rank)
  {
    forall f | f in children
      ensures Loaded(b, f.typeId, rank)
    {
      LoadedMonotone(a, b, f.typeId, rank);
    }
  }

  /** The next child is loaded into a cache that grows. */
  lemma OneMoreLoaded(a: TypeEnv, b: TypeEnv, children: seq<Field>, i: nat, rank: Ranking)
    requires Acyclic(a, rank) && Acyclic(b, rank) && PartOf(a, b) && i < |children|
    requires AllLoaded(a, children[..i], rank) && Loaded(b, children[i].typeId, rank)
    ensures AllLoaded(b, children[..i + 1], rank)
  {
    assert children[..i + 1] == children[..i] + [children[i]];
    AllLoadedMonotone(a, b, children[..i], rank);
  }

  /** A cache grows by what a callback answers, and by definitions of vendor structures only. */
  predicate Grows(a: TypeEnv, b: TypeEnv) {
    PartOf(a, b) && forall t | t in b.definitions && t !in a.definitions :: IsVendorStructure(b, t)
  }

  lemma GrowsOn(a: TypeEnv, b: TypeEnv, c: TypeEnv)
    requires Grows(a, b) && Grows(b, c)
    ensures Grows(a, c)
  {
    forall t | t in c.definitions && t !in a.definitions
      ensures IsVendorStructure(c, t)
    {
      if t in b.definitions {
        assert IsVendorStructure(b, t) && Base(c, t) == Base(b, t);
      }
    }
  }

  class CachedConverterCallback {
    // what the callback behind the cache answers
    const callback: TypeEnv
    var superTypes: map<UaNodeId, seq<UaNodeId>>
    var structureDefinitions: map<UaNodeId, StructureDefinition>

    ghost function Cache(): TypeEnv
      reads this
    {
      TypeEnv(superTypes, structureDefinitions)
    }

    ghost predicate Valid()
      reads this
    {
      PartOf(Cache(), callback)
    }

    constructor (callback: TypeEnv)
      ensures Valid() && this.callback == callback && Cache() == TypeEnv(map[], map[])
    {
      this.callback := callback;
      superTypes, structureDefinitions := map[], map[];
    }

    method Clear()
      modifies this
      ensures Valid() && Cache() == TypeEnv(map[], map[])
    {
      superTypes, structureDefinitions := map[], map[];
    }

    /** Each answer is the callback's; a new one is remembered. */
    method GetSuperTypes(t: UaNodeId) returns (r: Result<seq<UaNodeId>>)
      requires Valid()
      modifies this`superTypes
      ensures Valid() && r == if t in callback.superTypes then Success(callback.superTypes[t]) else Failure
      ensures superTypes == if r.Success? then old(superTypes)[t := r.value] else old(superTypes)
    {
      if t !in superTypes {
        if t !in callback.superTypes {
          return Failure;
        }
        superTypes := superTypes[t := callback.superTypes[t]];
      }
      r := Success(superTypes[t]);
      assert t in old(superTypes) ==> old(superTypes)[t := r.value] == old(superTypes);
    }

    method GetStructureDefinition(t: UaNodeId) returns (r: Result<StructureDefinition>)
      requires Valid()
      modifies this`structureDefinitions
      ensures Valid() && r == Definition(callback, t)
      ensures structureDefinitions ==
        if r.Success? then old(structureDefinitions)[t := r.value] else old(structureDefinitions)
    {
      if t !in structureDefinitions {
        if t !in callback.definitions {
          return Failure;
        }
        structureDefinitions := structureDefinitions[t := callback.definitions[t]];
      }
      r := Success(structureDefinitions[t]);
      assert t in old(structureDefinitions) ==> old(structureDefinitions)[t := r.value] == old(structureDefinitions);
    }

    /** `preload`: false stands for the exception about missing type information. */
    method Preload(t: UaNodeId, ghost rank: Ranking) returns (ok: bool)
      requires Valid() && Acyclic(callback, rank) && rank(t).Some?
      modifies this
      ensures Valid() && Acyclic(Cache(), rank) && Grows(old(Cache()), Cache())
      ensures ok ==> Loaded(Cache(), t, rank)
      ensures ok <==> Loaded(callback, t, rank)
      decreases Height(rank, t), 2
    {
      if t.ns == 0 {
        return true;
      }
      LoadedVendorType(callback, t, rank);
      var supers := GetSuperTypes(t);
      if supers.Failure? || |supers.value| == 0 || supers.value[|supers.value| - 1] == NULL_ID {
        return false;
      }
      var base := supers.value[|supers.value| - 1];
      if IsStructured(base) {
        ok := PreloadStructure(t, rank);
      } else {
        ok := true;
      }
      LoadedVendorType(Cache(), t, rank);
    }

    /** The case of a structure or union. */
    method PreloadStructure(t: UaNodeId, ghost rank: Ranking) returns (ok: bool)
      requires Valid() && Acyclic(callback, rank) && rank(t).Some? && t.ns != 0
      requires HasBase(Cache(), t) && IsStructured(Base(Cache(), t))
      modifies this
      ensures Valid() && Acyclic(Cache(), rank) && Grows(old(Cache()), Cache())
      ensures ok ==> t in structureDefinitions && AllLoaded(Cache(), structureDefinitions[t].children, rank)
      ensures ok <==> t in callback.definitions && AllLoaded(callback, callback.definitions[t].children, rank)
      decreases Height(rank, t), 1
    {
      var sd := GetStructureDefinition(t);
      if sd.Failure? {
        return false;
      }
      ok := PreloadChildren(t, sd.value.children, rank);
    }

    /** The loop over the fields of a structure. */
    method PreloadChildren(t: UaNodeId, children: seq<Field>, ghost rank: Ranking) returns (ok: bool)
      requires Valid() && Acyclic(callback, rank) && forall f | f in children :: Lower(rank, f.typeId, t)
      modifies this
      ensures Valid() && Grows(old(Cache()), Cache()) && Acyclic(Cache(), rank)
      ensures ok ==> AllLoaded(Cache(), children, rank)
      ensures ok <==> AllLoaded(callback, children, rank)
      decreases Height(rank, t), 0
    {
      for i := 0 to |children|
        invariant Valid() && Grows(old(Cache()), Cache()) && Acyclic(Cache(), rank)
        invariant AllLoaded(Cache(), children[..i], rank)
      {
        assert children[i] in children;
        ghost var before := Cache();
        var loaded := Preload(children[i].typeId, rank);
        GrowsOn(old(Cache()), before, Cache());
        if !loaded {
          return false;
        }
        OneMoreLoaded(before, Cache(), children, i, rank);
      }
      assert children[..|children|] == children;
      AllLoadedMonotone(Cache(), callback, children, rank);
      return true;
    }
  }
}
